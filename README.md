# fmm-cpp in Dafny: the 2-D Fast Multipole Method tree and its expansions

This project models the core of fmm-cpp, a two-dimensional Fast Multipole
Method (FMM) for logarithmic-kernel potentials, and proves properties of that
model. The source code is C++.

The FMM builds a balanced quadtree of height H over the bounding box of the
sources. Levels are filled breadth first, and the children of node j of level L are
nodes 4j .. 4j+3 of level L+1, in quadrant order. The tree then runs three
passes:

1. Every leaf gets a multipole expansion built from its own points ("buildExpansion").
2. From level H-1 up to level 2, each node sums the M2M translations of its four children's multipoles.
3. From level 2 down to the leaves, each node adds the L2L translation of its parent's local expansion and the M2L conversion of every multipole on its interaction list.

`evaluate` at a point does two things:
- it evaluates the local expansion of the point's leaf;
- it adds the kernel's potential of every source in the leaf's near neighbours, except the sources located at the point itself.

The modules follow the source files:

- `Vectors` (vector.dfy, `src/vector.h`): the `Vector2` value, its arithmetic, `==`/`!=`, `dot`, `norm2`, `zeros`, `ones`. A `Vector2Cell` class carries the in-place compound assignments.
- `Geometry` (point.dfy, `src/point.h`): points, boxes, `contains`, `computeBoundingBox` (with the exact `DBL_MAX` start values and the 1e-5 padding), `adjacent` (with the 1e-5 relative tolerance), `getQuadrant` and `getChildBox` (whose default case is the "Invalid quadrant" error).
- `Tables` (tables.dfy, `src/tables.h`): the three memo tables as classes. Each has `seq` fields updated in place and a `BuildTable` method with the source's loops.
- `Complexes`, `RealFacts`, `Series`, `Outcomes`: helper modules that follow no single source file.
  - `Complexes` (complex.dfy) is the complex arithmetic the expansions use; `RealFacts` (reals.dfy) holds the sign facts about real products and sums of squares that complex division and `norm2` need.
  - `Series` (series.dfy) is the expansion value shared by both kinds; `Outcomes` (outcomes.dfy) holds the `Result`/`Status` values that model a thrown exception.
- `Transforms` (transforms.dfy): the lower binomial transform, entry m being sum_{i=0..m} C(m, i) s^(m-i) x_i. M2M on weighted coefficients is this transform, and the transform composes by adding steps; `Multipoles.M2MCompose` rests on both facts.
- `Multipoles` (multipole.dfy, `src/multipole.{h,cpp}`) and `Locals` (local.dfy, `src/local.{h,cpp}`):
  - the two expansion classes, with their fields and loops;
  - pure coefficient functions (`BuildCoeffs`, `M2MCoeffs`, `M2LCoeffs`, `TaylorShift`, `LocalValue`), which the methods are proved to compute;
  - lemmas about those functions.
- `TreeSpec` (treespec.dfy) and `FmmTrees` (fmmtree.dfy, `src/fmmtree.h`):
  - `FmmTrees` holds `NaiveFmmTree` as a class whose `levels` field is an arena `seq<seq<Node>>`, and `FmmNode2` as the `Node` record. Links between nodes are per-level indices.
  - Each constructor step is a method proved against `TreeSpec`'s description of the built tree, which is a function of the root box, the height and the sources.
  - `Valid()` says that every node holds its final contents.

## Model

| member | source | states |
|---|---|---|
| Vectors.Vector2Cell.constructor | src/vector.h:8 | the cell holds the two given coordinates |
| Vectors.Vector2.Plus | src/vector.h:10-12 | definition: the component-wise sum |
| Vectors.Vector2.Minus | src/vector.h:14-16 | definition: the component-wise difference |
| Vectors.Vector2.Times | src/vector.h:18-20 | definition: both components times the scalar |
| Vectors.Vector2.Over | src/vector.h:22-24 | definition: both components divided by the scalar |
| Vectors.Vector2.Equals | src/vector.h:50-52 | definition: both components equal |
| Vectors.Vector2.NotEquals | src/vector.h:53 | definition: the negation of `==` |
| Vectors.Vector2.Dot | src/vector.h:55 | definition: x x' + y y' |
| Vectors.Vector2.Norm2 | src/vector.h:56 | definition: the vector dotted with itself |
| Vectors.PlusMinusInverse | src/vector.h:10-16 | `-` undoes `+` and `+` undoes `-`; `a - a` is `zeros()` |
| Vectors.PlusIdentityCommutes | src/vector.h:10-12 | `zeros()` is the identity of `+`, and `+` commutes |
| Vectors.TimesOverInverse | src/vector.h:18-24 | dividing by a non-zero scalar undoes multiplying by it, and the other way round |
| Vectors.Vector2Cell.AddAssign | src/vector.h:26-30 | `+=` leaves the cell holding old value `+` other |
| Vectors.Vector2Cell.SubAssign | src/vector.h:32-36 | `-=` leaves the cell holding old value `-` other |
| Vectors.Vector2Cell.MulAssign | src/vector.h:38-42 | `*=` leaves the cell holding old value `*` scalar |
| Vectors.Vector2Cell.DivAssign | src/vector.h:44-48 | `/=` leaves the cell holding old value `/` scalar |
| Vectors.EqualsIff | src/vector.h:50-53 | `==` holds exactly when the two vectors are equal; `!=` exactly when they differ |
| Vectors.Norm2Properties | src/vector.h:55-56 | `norm2` is the vector dotted with itself; it is never negative, and it is zero only for `zeros()` |
| Vectors.DotProperties | src/vector.h:55-60 | `dot` is symmetric and distributes over `+`; dotting with `ones()` sums the coordinates |
| Geometry.Box2.Contains | src/point.h:24-27 | definition: both coordinates within the half side of the centre, boundary included |
| Geometry.ComputeBoundingBox | src/point.h:30-55 | the result is the box BoundingBox describes; no points gives centre (0,0) and half side 0; the half side is never negative; every input point is inside |
| Geometry.BoundingBoxContainsAll | src/point.h:30-55 | for any sequence of points, the padded box has a non-negative half side and contains each point |
| Geometry.RunningMinBelow | src/point.h:35-45 | the running minimum is at most its start value and at most every coordinate scanned |
| Geometry.RunningMaxAbove | src/point.h:35-45 | the running maximum is at least its start value and at least every coordinate scanned |
| Geometry.Adjacent | src/point.h:57-65 | definition: on each axis the centres are at most the sum of the half sides apart, plus a tolerance of 1e-5 times the smaller half side |
| Geometry.AdjacentSymmetric | src/point.h:57-65 | adjacency does not depend on the order of the two boxes |
| Geometry.AdjacentReflexive | src/point.h:57-65 | a box with a non-negative half side is adjacent to itself |
| Geometry.NotAdjacentCentersDiffer | src/point.h:57-65 | two boxes that are not adjacent have different centres |
| Geometry.GetQuadrant | src/point.h:68-81 | the code is below 4; bit 0 is set iff x is at or right of the centre; bit 1 is set iff y is at or above it |
| Geometry.GetChildBox | src/point.h:83-108 | definition: half the half side, the centre moved by it in the direction of the code's bits, and the "Invalid quadrant" error for a code above 3 |
| Geometry.ChildBoxShape | src/point.h:83-108 | a child box exists iff the code is 0..3, and any other code is the error; the child's half side is half the parent's; its centre moves that far on each axis, in the direction the code's bits name |
| Geometry.ChildContainsPoint | src/point.h:68-108 | the child that getQuadrant names contains every point its parent contains |
| Geometry.QuadrantIsUnique | src/point.h:68-108 | if a point off the parent's centre lines lies in child q, getQuadrant returns q |
| Geometry.SiblingsAdjacent | src/point.h:57-108 | any two children of one parent are adjacent |
| Tables.ExponentialTable.constructor | src/tables.h:22-24 | the table starts with base 0 and no entries |
| Tables.ExponentialTable.Exp | src/tables.h:12-20 | returns z^n and records z as the base; table[i] == base^i is kept; a new base rebuilds the table; an n past the end extends it to n+1 entries; otherwise the table is unchanged |
| Tables.ExponentialTable.BuildTable | src/tables.h:26-35 | start 0 restarts at [1]; afterwards the table has end+1 entries, and entry i is z^i |
| Tables.InverseExponentialTable.constructor | src/tables.h:52-54 | the table starts with base 0 and no entries |
| Tables.InverseExponentialTable.InvExp | src/tables.h:42-50 | returns z^-n; the same caching rules as exp apply |
| Tables.InverseExponentialTable.BuildTable | src/tables.h:56-65 | afterwards the table has end+1 entries, and entry i is z^-i |
| Complexes.InvPowTimesPow | src/tables.h:56-65 | the inverse table's recurrence gives true inverse powers: z^-n times z^n is one |
| Tables.Resize | src/tables.h:31 | `resize` keeps the common prefix and pads with zeros |
| Tables.BinomialTable.constructor | src/tables.h:83-85 | the initial state {1} for n = 0 is already Pascal row 0 |
| Tables.BinomialTable.Binomial | src/tables.h:72-81 | returns 0 outside 0 <= k <= n, and C(n, k) inside; the row is rebuilt only when n changes |
| Tables.BinomialTable.BuildTable | src/tables.h:87-96 | the in-place descending update leaves exactly Pascal row n |
| Tables.BinomAboveRowIsZero | src/tables.h:88-94 | entries past the current row stay zero |
| Tables.BinomDiagonal | src/tables.h:88-94 | the last entry of every row is one |
| Tables.BinomFactorial | src/tables.h:87-96 | the table's numbers are the binomial coefficients: C(n,k) k! (n-k)! = n! |
| Tables.BinomAbsorption | src/tables.h:87-96 | the absorption identity n C(n-1, k-1) = k C(n, k) |
| Series.ComplexVectorRoundTrip | src/multipole.h:20-27 | converting a centre to Complex and back loses nothing, and it commutes with subtraction |
| Series.AccumulateSpec | src/multipole.cpp:3-13 | `+=` succeeds iff order and centre agree, and otherwise carries the error message; on success it keeps p and the centre and adds coefficient by coefficient |
| Series.AddCoeffsLaws | src/local.cpp:3-12 | adding zero coefficients changes nothing; the sum commutes and associates |
| Multipoles.MultipoleExpansion.constructor | src/multipole.h:20-21 | p + 1 zero coefficients about the given centre |
| Multipoles.MultipoleExpansion.FromCoeffs | src/multipole.h:23-27 | p is the number of coefficients minus one; the coefficients and the centre are those given |
| Multipoles.MultipoleExpansion.Clear | src/multipole.h:30 | the coefficients become p + 1 zeros again; order and centre are kept |
| Multipoles.MultipoleExpansion.AddAssign | src/multipole.cpp:3-13 | throws "Cannot add incompatible multipole expansions" and changes nothing when order or centre differ; otherwise the value is the coefficient-wise sum (other may alias this) |
| Multipoles.MultipoleExpansion.BuildExpansion | src/multipole.cpp:30-43 | the coefficients become BuildCoeffs of the old ones, the centre and the sources; order and centre are kept |
| Multipoles.MultipoleExpansion.AddSourceInPlace | src/multipole.cpp:33-41 | for one source, coeffs[0] gains q and coeffs[k] loses q z^k / k |
| Multipoles.BuildCoeffsClosedForm | src/multipole.cpp:30-43 | after building, coeffs[0] has gained the total strength, and coeffs[k] has lost the moment sum_i q_i z_i^k / k |
| Multipoles.BuildFromZero | src/multipole.cpp:30-43 | built from zero, the coefficients are the total strength followed by minus the moments |
| Multipoles.BuildCoeffsConcat | src/multipole.cpp:30-43 | building from a ++ b is building from a, then from b |
| Multipoles.AddSourceCommutes | src/multipole.cpp:32-42 | two sources can be added in either order |
| Multipoles.SwapNeighbours | src/multipole.cpp:32-42 | swapping two neighbouring sources does not change the expansion |
| Multipoles.MoveToEnd | src/multipole.cpp:32-42 | moving one source to the end of the list does not change the expansion |
| Multipoles.BuildCoeffsPermutation | src/multipole.cpp:30-43 | two source lists with the same multiset build the same expansion: the order of the sources does not matter |
| Multipoles.MultipoleExpansion.M2M | src/multipole.cpp:45-63 | returns a fresh expansion about center - shift holding M2MCoeffs; the receiver is unchanged |
| Multipoles.M2MZeroShift | src/multipole.cpp:45-63 | a zero shift keeps every coefficient, except that it drops the imaginary part of coeffs[0] |
| Multipoles.M2MLinear | src/multipole.cpp:45-63 | M2M of a sum is the sum of the M2Ms, so a parent may add its children's translations |
| Multipoles.WeightedM2M | src/multipole.cpp:45-63 | with coeffs[k] scaled by k and coeffs[0] replaced by minus its real part, M2M is the lower binomial transform entry l = sum_k C(l, k) s^(l-k) x_k |
| Transforms.LowerBinomialClosedForm | src/multipole.cpp:51-60 | the transform's Pascal recurrence equals the closed sum sum_{i=0..m} C(m, i) s^(m-i) x_i |
| Transforms.LowerBinomialLinear | src/multipole.cpp:51-60 | the transform of z a + b is z times the transform of a plus the transform of b |
| Transforms.LowerBinomialCompose | src/multipole.cpp:51-60 | the transform with step s followed by the one with step t is the one with step s + t |
| Multipoles.M2MCompose | src/multipole.cpp:45-63 | translating by s1 and then by s2 is translating by s1 + s2 |
| Locals.LocalExpansion.constructor | src/local.h:21-22 | p + 1 zero coefficients about the given centre |
| Locals.LocalExpansion.FromCoeffs | src/local.h:24-28 | p is the number of coefficients minus one; the coefficients and the centre are those given |
| Locals.LocalExpansion.Clear | src/local.h:31 | the coefficients become p + 1 zeros again; order and centre are kept |
| Locals.LocalExpansion.AddAssign | src/local.cpp:3-12 | throws "Cannot add incompatible local expansions" and changes nothing when order or centre differ; otherwise the value is the coefficient-wise sum |
| Locals.LocalExpansion.Evaluate | src/local.cpp:14-27 | returns the real part of sum_l c_l (point - center)^l |
| Locals.PolySumIsHorner | src/local.cpp:14-27 | the ascending power sum evaluate accumulates equals the Horner form of the polynomial |
| Locals.LocalValueAtCenter | src/local.cpp:14-27 | at its own centre, an expansion evaluates to the real part of coeffs[0] |
| Locals.LocalValueAdd | src/local.cpp:3-12 | adding two compatible local expansions adds their values at every point |
| Locals.LocalExpansion.M2L | src/local.cpp:29-51 | all p + 1 coefficients become M2LCoeffs of the multipole and the shift; order and centre are kept |
| Locals.LocalExpansion.M2LHeadLoop | src/local.cpp:33-38 | coeffs[0] = m_0 log(-s) + sum_k sign_k m_k s^-k |
| Locals.LocalExpansion.M2LBodyLoop | src/local.cpp:41-48 | gives -m_0/l + sum_k sign_k m_k s^-k C(l+k-1, k-1), the sum before the scaling by s^-l |
| Locals.M2LLinear | src/local.cpp:29-51 | converting a sum of multipoles is adding their conversions |
| Locals.LocalExpansion.L2L | src/local.cpp:53-66 | returns a fresh expansion about center - shift holding TaylorShift of the coefficients; the receiver is unchanged |
| Locals.ShiftPass | src/local.cpp:59-61 | one pass of the nested loop over a copy: the slots before o are unchanged, and the rest are one Horner step |
| Locals.TaylorShiftValue | src/local.cpp:53-66 | the shifted polynomial, read about center - s, equals the original read about center |
| Locals.L2LPreservesValue | src/local.cpp:53-66 | the L2L result gives the same value as the original at every point |
| Locals.TaylorShiftZeroAndTop | src/local.cpp:53-66 | a zero shift changes nothing, and every shift keeps the top coefficient |
| Locals.HornerStepLinear | src/local.cpp:59-61 | one pass commutes with taking a - z b of two coefficient lists |
| Locals.TaylorShiftLinear | src/local.cpp:53-66 | L2L of a - z b is L2L of a minus z times L2L of b |
| Locals.TaylorShiftPad | src/local.cpp:53-66 | a zero coefficient appended on top stays zero and leaves the others as they were |
| Locals.TaylorShiftCompose | src/local.cpp:53-66 | shifting by s1 and then by s2 is shifting by s1 + s2 |
| Locals.ShiftSumSplit | src/local.cpp:59-61 | the closed sum for coefficient l satisfies the pass's recurrence: the lower slot's sum less s times slot l's sum |
| Locals.ShiftSumsStep | src/local.cpp:59-61 | the closed sums of c are one pass applied to the closed sums of c[1..] |
| Locals.TaylorShiftClosedForm | src/local.cpp:53-66 | L2L's coefficient l is sum_{k=l..p} C(k, l) (-s)^(k-l) c_k |
| TreeSpec.BoxAtHalfSide | src/fmmtree.h:148-163 | boxes built by repeated getChildBox never get a negative half side |
| TreeSpec.PathIndexIsNode | src/fmmtree.h:67-77 | the leaf index names a node of the level, and that node's box is the box the descent reached |
| TreeSpec.PathBoxContains | src/fmmtree.h:67-77 | a point of the root box lies in the box its descent reaches |
| TreeSpec.PointsInLeaf | src/fmmtree.h:99-102 | a leaf holds exactly the sources with its index, each as often as it occurs in the input |
| TreeSpec.CountBelowAppend | src/fmmtree.h:99-102 | appending one source adds one to the count of exactly those prefixes of leaves that contain its leaf |
| TreeSpec.PointCountsSum | src/fmmtree.h:99-102 | the leaves' point counts add up to the number of sources |
| TreeSpec.ZeroCounts | src/fmmtree.h:99-102 | with no sources every leaf is empty |
| TreeSpec.CandidatesIndex | src/fmmtree.h:175-176 | the candidates are the children of the parent's near neighbours, neighbour by neighbour, in quadrant order |
| TreeSpec.CandidatesBound | src/fmmtree.h:175-176 | every candidate is a child of a node of the parent level |
| TreeSpec.FiltersPartition | src/fmmtree.h:175-183 | adjacent and non-adjacent candidates together are the candidates (as multisets); each list holds only candidates that pass, or fail, the adjacency test |
| TreeSpec.DistantsEmpty | src/fmmtree.h:175-183 | when all candidates are adjacent, the interaction list is empty |
| TreeSpec.NearFarPartition | src/fmmtree.h:165-184 | below the root, the near list and the interaction list split the candidates: their lengths add up to four times the parent's near count |
| TreeSpec.ListsBound | src/fmmtree.h:165-184 | every handle in a near list or interaction list names a node of that level |
| TreeSpec.SelfIsNear | src/fmmtree.h:165-184 | every node is its own near neighbour |
| TreeSpec.AdjacentIsKept | src/fmmtree.h:177-178 | every candidate whose box is adjacent lands on the near list |
| TreeSpec.SplitStep | src/fmmtree.h:177-181 | one more candidate goes to the near list exactly when its box is adjacent, and to the interaction list otherwise |
| TreeSpec.Level1HasNoInteractions | src/fmmtree.h:165-184 | the four children of the root touch one another, so their interaction lists are empty |
| TreeSpec.FarCentersDiffer | src/fmmtree.h:131-135 | a box on an interaction list has a different centre, so the M2L shift is non-zero |
| TreeSpec.UpSumOfFour | src/fmmtree.h:112-122 | an internal node of level 2 or below holds the sum, from zero and in quadrant order, of its children's M2M translations |
| TreeSpec.DirectSumAppend | src/fmmtree.h:193-200 | a source located at the query point contributes nothing; any other source contributes its potential once |
| FmmTrees.NewNode | src/fmmtree.h:18-19 | definition: the given box and type, no children, parent or lists, and zero multipole and local of order p about the box centre |
| FmmTrees.NaiveFmmTree.constructor | src/fmmtree.h:79-138 | height 0 leaves the tree empty; otherwise the tree is built: every node of every level holds its final box, type, links, lists, points and expansions |
| FmmTrees.NaiveFmmTree.BuildLevels | src/fmmtree.h:92-97 | after the first loop every node has its children and both lists, and no points or expansions yet |
| FmmTrees.NaiveFmmTree.BuildLevel | src/fmmtree.h:93-96 | one level's nodes are linked in order, and the next level is pushed behind them |
| FmmTrees.NaiveFmmTree.LinkNode | src/fmmtree.h:94-95 | buildChildNodes then computeNodeLists on node i links it, leaves the nodes after it fresh, and pushes its four children behind those of the nodes before it |
| FmmTrees.NaiveFmmTree.LinkedIsStart | src/fmmtree.h:92-97 | once every level is linked, the tree is where the later stages start |
| FmmTrees.NaiveFmmTree.BuildChildNodes | src/fmmtree.h:148-163 | a leaf-level node becomes a Leaf; any other becomes Internal, gets handles 4i..4i+3, and pushes four Leaf children whose boxes come from getChildBox and whose parent is i; nothing else changes |
| FmmTrees.NaiveFmmTree.ComputeNodeLists | src/fmmtree.h:165-184 | the root's near list is itself alone; any other node gets the adjacent candidates as near neighbours and the others as its interaction list; nothing else changes |
| FmmTrees.NaiveFmmTree.FilterCandidates | src/fmmtree.h:175-183 | the double loop pushes the adjacent candidates onto near and the others onto far, in candidate order |
| FmmTrees.NaiveFmmTree.FilterChildren | src/fmmtree.h:176-182 | the inner loop over one parent neighbour's four children extends both lists by that neighbour's adjacent and non-adjacent children |
| FmmTrees.NaiveFmmTree.FileCandidate | src/fmmtree.h:177-181 | a child whose box touches the node's goes onto near_neighbors, any other onto interaction_list, behind what is already there |
| FmmTrees.NaiveFmmTree.AssignPoints | src/fmmtree.h:99-102 | after the loop, each leaf holds the sources that getLeafIndex routes to it, in input order |
| FmmTrees.NaiveFmmTree.LeafOf | src/fmmtree.h:67-77 | the descent names a node of the leaf level |
| FmmTrees.NaiveFmmTree.GetLeafIndex | src/fmmtree.h:67-77 | the loop computes the index of the leaf whose box the descent from the root box reaches |
| FmmTrees.NaiveFmmTree.NumLeaves | src/fmmtree.h:49 | 4^height: 1 at height 0, and the size of the leaf level once the levels are sized |
| FmmTrees.NaiveFmmTree.FormLeafMultipoles | src/fmmtree.h:104-108 | step 1 gives every leaf the multipole built from its points |
| FmmTrees.NaiveFmmTree.FormLeaf | src/fmmtree.h:106-107 | leaf i gets the multipole built from its points; no other node changes |
| FmmTrees.NaiveFmmTree.UpwardPass | src/fmmtree.h:110-122 | step 2 gives every node of levels height-1 .. 2 its final multipole |
| FmmTrees.NaiveFmmTree.CombineChildren | src/fmmtree.h:113-121 | node i of the level gets its final multipole; no other node changes |
| FmmTrees.NaiveFmmTree.SumChildMultipoles | src/fmmtree.h:114-119 | me, started at zero about the node's centre and given the += of the four M2M results, is the node's final multipole |
| FmmTrees.NaiveFmmTree.TranslatedChild | src/fmmtree.h:117-118 | the child's M2M by (child centre - node centre) is an expansion about the node's centre with the child's translated coefficients |
| FmmTrees.NaiveFmmTree.DownwardPass | src/fmmtree.h:124-137 | step 3 gives every node of levels 2 .. height its final local |
| FmmTrees.NaiveFmmTree.GatherLocal | src/fmmtree.h:127-136 | node i of the level gets its final local; no other node changes |
| FmmTrees.NaiveFmmTree.SumLocal | src/fmmtree.h:128-135 | the parent's L2L result plus the += of every interaction's M2L conversion is the node's final local |
| FmmTrees.NaiveFmmTree.StartLocal | src/fmmtree.h:128-129 | after the L2L `+=`, the node's local holds the first term of its final local |
| FmmTrees.NaiveFmmTree.ShiftedParent | src/fmmtree.h:128-129 | the parent's L2L by (parent centre - node centre) is an expansion about the node's centre |
| FmmTrees.NaiveFmmTree.InteractionSteps | src/fmmtree.h:131-135 | each interaction term adds the M2L conversion of the multipole the list names |
| FmmTrees.NaiveFmmTree.AddInteractions | src/fmmtree.h:131-135 | the interaction loop adds every conversion in list order; no `+=` throws |
| FmmTrees.NaiveFmmTree.Evaluate | src/fmmtree.h:186-203 | the result is the leaf's local value at the point plus the direct potential of every near neighbour's points, except those at the point itself |
| FmmTrees.NaiveFmmTree.AddNear | src/fmmtree.h:193-200 | the loop over the near neighbours adds, neighbour by neighbour, the direct potential of each one's points |
| FmmTrees.NaiveFmmTree.AddDirect | src/fmmtree.h:194-199 | the loop over one neighbour's points adds the potential of each point not at the query point, and skips those at it |
| FmmTrees.NaiveFmmTree.EvaluateSources | src/fmmtree.h:205-215 | one potential per source, in input order, each the value of evaluate at that source |
| FmmTrees.NaiveFmmTree.ChildLinks | src/fmmtree.h:148-163 | child q of an internal node j is node 4j+q of the next level; its parent is j, and its box is getChildBox of j's box |
| FmmTrees.NaiveFmmTree.NodeKinds | src/fmmtree.h:148-173 | a node is a Leaf iff it is on the last level; leaves have no children; every node is its own near neighbour |
| FmmTrees.NaiveFmmTree.ListsPartition | src/fmmtree.h:165-184 | below the root, near neighbours and interaction list split the children of the parent's near neighbours into adjacent and non-adjacent boxes |
| FmmTrees.NaiveFmmTree.Level1HasNoInteractionList | src/fmmtree.h:165-184 | the nodes of level 1 have empty interaction lists |
| FmmTrees.NaiveFmmTree.SourcesInTheirLeaves | src/fmmtree.h:99-102 | every source is in the leaf getLeafIndex names for it, inside that leaf's box, and as often as in the input; a leaf holds only its own sources |
| FmmTrees.NaiveFmmTree.LeafTotalIsCount | src/fmmtree.h:99-102 | the points stored in leaves 0..n-1 number as many as the sources routed to them |
| FmmTrees.NaiveFmmTree.LeafPointCounts | src/fmmtree.h:99-102 | the leaves together hold as many points as there are sources |
| FmmTrees.NaiveFmmTree.LeafContents | src/fmmtree.h:99-108 | a built leaf holds its own points and the multipole built from them about its box centre |
| FmmTrees.NaiveFmmTree.LeafLinks | src/fmmtree.h:188-193 | a built leaf holds its final local expansion and its near-neighbour list, every entry of which is a leaf handle |
| FmmTrees.NaiveFmmTree.LeafMultipoleMoments | src/fmmtree.h:104-108 | a leaf's multipole is about its box centre; it holds the total strength of its points first, then minus their k-th moments |
| FmmTrees.NaiveFmmTree.UpperLevelsZero | src/fmmtree.h:110-137 | both passes stop at level 2: locals of levels 0 and 1 stay zero, and so do multipoles there, except at the leaf level |
| FmmTrees.NaiveFmmTree.ChildrenSumToMultipole | src/fmmtree.h:110-122 | in a built tree, an internal node of level 2 or below stores the sum of its four stored children's M2M translations |
| FmmTrees.NaiveFmmTree.ChildTranslation | src/fmmtree.h:116-118 | a stored child's translation is the translation of its final multipole by ChildShift |
| FmmTrees.NaiveFmmTree.LocalSplits | src/fmmtree.h:124-137 | in a built tree, below level 1, a node's local gives at every point its parent's local value plus the local values of the M2L conversions of every multipole on its interaction list |
| FmmTrees.NaiveFmmTree.InteractionsConvertible | src/fmmtree.h:131-135 | every multipole an interaction list names is of order p and about a different centre, and its conversion is the one the node's local receives |
| FmmTrees.NaiveFmmTree.DownSumValue | src/fmmtree.h:124-137 | after the L2L term and n interaction terms, the local's value is the parent's value plus those n conversions' values |
| TreeSpec.ParentShiftValue | src/fmmtree.h:128-129 | the L2L term alone gives the parent's local value at every point |
| FmmTrees.NaiveFmmTree.DownSumStep | src/fmmtree.h:131-135 | one interaction term adds exactly the value of its conversion |

## Left out

- Floating point: coordinates, strengths and coefficients are exact reals and complex numbers over reals. IEEE rounding, infinities and NaN are not modelled.
- Floating point preconditions: for that reason `Over`, `DivAssign`, `InvExp` and the inverse table's `BuildTable` require the divisor to be non-zero. For the same reason `LocalExpansion.M2L` requires the multipole's centre to differ from its own when p > 0. In C++, division by zero gives infinities or NaN instead. The tree never divides by zero, as `FarCentersDiffer` shows.
- `std::log` is a function parameter `clog` of the tree and of M2L, because its branch cut and transcendental values are outside the model.
- `norm()` (a `std::sqrt`) is not modelled.
- `MultipoleExpansion::evaluate` (src/multipole.cpp:15-28) is not modelled. It needs the complex logarithm, and nothing in the tree calls it.
- `Kernel::potential` is a function parameter `potential` of the tree. The kernels themselves are not part of this model.
- Integer widths are unbounded:
  - `long long` binomial coefficients;
  - the `size_t` leaf index, whose shift would overflow for heights of 32 and above;
  - the `int` conversion of `sources.size()` in `evaluateSources`;
  - `num_leaves` computed with `std::pow` as a double; `NumLeaves` is exact.
- Memory and lifetime: raw pointers, `new`/`delete`, the destructor, and the lifetime of the `sources_` reference are not modelled. Nodes live in the `levels` arena and refer to each other by per-level index.
  - Node links: `children` is empty for a leaf, where the source holds four null pointers.
  - Classes: the arena stores each node's expansions as values, not as expansion objects with their memo tables, and the tree reads the stored values through fresh `FromCoeffs` objects. The tables change nothing but their caches, which the expansion classes model separately.
- `FmmTrees.NaiveFmmTree.constructor` requires p >= 0 when the height is at least 1. The inputs this excludes, and what the source does with them:
  - p <= -2: building the root node constructs its multipole with `coeffs(p + 1)` (src/fmmtree.h:18-19, 89; src/multipole.h:20-21), which throws `std::length_error`.
  - p = -1 and at least one source: step 1 runs buildExpansion on the source's leaf, which writes `coeffs[0]` of an empty vector (src/multipole.cpp:35), which is undefined behaviour.
  - p = -1 and height >= 2: step 3 (src/fmmtree.h:126) runs M2L on the level-2 nodes, whose interaction lists are not empty. M2L writes `coeffs[0]` of an empty vector (src/local.cpp:33). From height 3 on, step 2 (src/fmmtree.h:112) also runs M2M, which writes `new_coeffs[0]` of an empty vector (src/multipole.cpp:48-50). Both are undefined behaviour.
  - p = -1, height 1 and no sources: here the source is well defined. Neither M2M nor M2L runs, every expansion has no coefficients, and `evaluate` returns 0 because both of its loops are empty (src/local.cpp:21, src/fmmtree.h:193-199). The model does not cover this tree.
- `Multipoles.MultipoleExpansion.M2M` requires p >= 0. With p = -1 it writes `new_coeffs[0]` of an empty vector (src/multipole.cpp:48-50).
- `Locals.LocalExpansion.M2L` requires p >= 0. With p = -1 it writes `coeffs[0]` of an empty vector (src/local.cpp:33).
- `FmmTrees.NaiveFmmTree.NumLeaves` requires height >= 0, which every tree the constructor builds meets. It returns 1 at height 0, as `std::pow(4, 0)` does.
- `FmmTrees.NaiveFmmTree.Evaluate` and `FmmTrees.NaiveFmmTree.EvaluateSources` require a built tree of height at least 1. At height 0 the source leaves `root_` uninitialised and `levels_` empty, so `evaluate` is undefined there.
- `FmmTrees.NaiveFmmTree.constructor` requires height >= 0. At height -1 the source resizes `levels_` to 0 entries and then pushes onto `levels_[0]` (src/fmmtree.h:86-90), which is undefined behaviour. At height -2 or below `resize` is given a negative size converted to `size_t` and throws `std::length_error`.
- `Multipoles.MultipoleExpansion.constructor` requires p >= -1. For p < -1, `coeffs(p + 1)` at src/multipole.h:20-21 gets a negative size converted to `size_t` and throws `std::length_error`.
- `Locals.LocalExpansion.constructor` requires p >= -1, for the same reason at src/local.h:21-22.
- `Multipoles.MultipoleExpansion.BuildExpansion` requires p >= 0 unless there are no sources. With p = -1 the loop writes `coeffs[0]` of an empty vector (src/multipole.cpp:35), which is undefined behaviour.
- `Locals.LocalExpansion.M2L` requires multipole.p >= p. Otherwise src/local.cpp:36-47 reads `multipole.coeffs[k]` past the end of the vector, which is undefined behaviour.
- Concurrency: none in the source, none modelled.
- The accuracy of the multipole approximation (the truncation error bounds of the FMM) is not stated. The model proves that the code computes the series it names, exactly; it does not bound how far those series are from the true potential.
