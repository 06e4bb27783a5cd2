/** What the balanced quadtree of src/fmmtree.h holds once it is built, as
    functions of the root box, the height and the sources. Node j of level L
    (a handle into the level's arena) has children 4j .. 4j+3 on level L+1 and
    parent j / 4 on level L-1, exactly as the breadth-first construction
    pushes them. */
module TreeSpec {

  import opened Complexes
  import opened Vectors
  import opened Geometry
  import opened Outcomes
  import opened Tables
  import opened Series
  import opened Multipoles
  import opened Locals

  /** 4^n, the number of nodes on level n. */
  function Pow4(n: nat): (r: nat)
    ensures r >= 1
  {
    if n == 0 then 1 else 4 * Pow4(n - 1)
  }

  // ---------------------------------------------------------------------------
  // Boxes

  /** The box of node j on a level: the root box, then child j % 4 of the
      parent's box. */
  function BoxAt(root: Box2, level: nat, j: nat): Box2 {
    if level == 0 then root
    else
      ChildBoxShape(BoxAt(root, level - 1, j / 4), j % 4);
      GetChildBox(BoxAt(root, level - 1, j / 4), j % 4).value
  }

  /** Boxes never get a negative half side. */
  lemma {:induction false} BoxAtHalfSide(root: Box2, level: nat, j: nat)
    requires root.halfSide >= 0.0
    ensures BoxAt(root, level, j).halfSide >= 0.0
  {
    if level > 0 {
      BoxAtHalfSide(root, level - 1, j / 4);
      ChildBoxShape(BoxAt(root, level - 1, j / 4), j % 4);
    }
  }

  /** The handles of a node's four children, in quadrant order. */
  function ChildHandles(j: nat): seq<nat> {
    [4 * j, 4 * j + 1, 4 * j + 2, 4 * j + 3]
  }

  // ---------------------------------------------------------------------------
  // Near neighbours and interaction lists

  /** The children of the parent's near neighbours, neighbour by neighbour,
      quadrant by quadrant: the nodes computeNodeLists examines. */
  function Candidates(parentNear: seq<nat>): (r: seq<nat>)
    ensures |r| == 4 * |parentNear|
  {
    if |parentNear| == 0 then []
    else Candidates(parentNear[..|parentNear| - 1]) + ChildHandles(parentNear[|parentNear| - 1])
  }

  /** The candidates whose boxes are adjacent to box, in order. */
  function Adjacents(root: Box2, level: nat, box: Box2, cs: seq<nat>): seq<nat> {
    if |cs| == 0 then []
    else
      var rest := Adjacents(root, level, box, cs[..|cs| - 1]);
      if Adjacent(box, BoxAt(root, level, cs[|cs| - 1])) then rest + [cs[|cs| - 1]] else rest
  }

  /** The candidates whose boxes are not adjacent to box, in order. */
  function Distants(root: Box2, level: nat, box: Box2, cs: seq<nat>): seq<nat> {
    if |cs| == 0 then []
    else
      var rest := Distants(root, level, box, cs[..|cs| - 1]);
      if Adjacent(box, BoxAt(root, level, cs[|cs| - 1])) then rest else rest + [cs[|cs| - 1]]
  }

  /** Splitting one more candidate c files it on the side its adjacency says. */
  lemma SplitStep(root: Box2, level: nat, box: Box2, cs: seq<nat>, c: nat)
    ensures Adjacents(root, level, box, cs + [c])
         == if Adjacent(box, BoxAt(root, level, c)) then Adjacents(root, level, box, cs) + [c]
            else Adjacents(root, level, box, cs)
    ensures Distants(root, level, box, cs + [c])
         == if Adjacent(box, BoxAt(root, level, c)) then Distants(root, level, box, cs)
            else Distants(root, level, box, cs) + [c]
  {
    assert (cs + [c])[..|cs|] == cs;
  }

  /** near_neighbors of node j: the root alone at level 0, else the adjacent candidates. */
  function NearAt(root: Box2, level: nat, j: nat): seq<nat> {
    if level == 0 then [0]
    else Adjacents(root, level, BoxAt(root, level, j), Candidates(NearAt(root, level - 1, j / 4)))
  }

  /** interaction_list of node j: empty at the root, else the non-adjacent candidates. */
  function FarAt(root: Box2, level: nat, j: nat): seq<nat> {
    if level == 0 then []
    else Distants(root, level, BoxAt(root, level, j), Candidates(NearAt(root, level - 1, j / 4)))
  }

  lemma {:induction false} CandidatesIndex(parentNear: seq<nat>, a: nat, q: nat)
    requires a < |parentNear| && q < 4
    ensures Candidates(parentNear)[4 * a + q] == 4 * parentNear[a] + q
  {
    var n := |parentNear|;
    if a < n - 1 {
      CandidatesIndex(parentNear[..n - 1], a, q);
    }
  }

  /** Every candidate is a child of some member of parentNear. */
  lemma {:induction false} CandidatesBound(parentNear: seq<nat>, bound: nat)
    requires forall k :: 0 <= k < |parentNear| ==> parentNear[k] < bound
    ensures forall k :: 0 <= k < |Candidates(parentNear)| ==> Candidates(parentNear)[k] < 4 * bound
  {
    var cs := Candidates(parentNear);
    forall k | 0 <= k < |cs|
      ensures cs[k] < 4 * bound
    {
      CandidatesIndex(parentNear, k / 4, k % 4);
      assert 4 * (k / 4) + k % 4 == k;
    }
  }

  /** The two filters split the candidates: together they keep every candidate
      exactly once, the first keeps only adjacent and the second only
      non-adjacent boxes. */
  lemma {:induction false} FiltersPartition(root: Box2, level: nat, box: Box2, cs: seq<nat>)
    ensures multiset(Adjacents(root, level, box, cs)) + multiset(Distants(root, level, box, cs)) == multiset(cs)
    ensures forall c :: c in Adjacents(root, level, box, cs) ==> c in cs && Adjacent(box, BoxAt(root, level, c))
    ensures forall c :: c in Distants(root, level, box, cs) ==> c in cs && !Adjacent(box, BoxAt(root, level, c))
  {
    if |cs| > 0 {
      var front := cs[..|cs| - 1];
      FiltersPartition(root, level, box, front);
      assert cs == front + [cs[|cs| - 1]];
    }
  }

  /** |near| + |interaction| is four times the parent's number of near neighbours,
      and near ++ interaction is a rearrangement of the candidates. */
  lemma NearFarPartition(root: Box2, level: nat, j: nat)
    requires level >= 1
    ensures var cs := Candidates(NearAt(root, level - 1, j / 4));
      && multiset(NearAt(root, level, j)) + multiset(FarAt(root, level, j)) == multiset(cs)
      && |NearAt(root, level, j)| + |FarAt(root, level, j)| == 4 * |NearAt(root, level - 1, j / 4)|
      && (forall c :: c in NearAt(root, level, j) ==> Adjacent(BoxAt(root, level, j), BoxAt(root, level, c)))
      && (forall c :: c in FarAt(root, level, j) ==> !Adjacent(BoxAt(root, level, j), BoxAt(root, level, c)))
  {
    var cs := Candidates(NearAt(root, level - 1, j / 4));
    FiltersPartition(root, level, BoxAt(root, level, j), cs);
    assert |multiset(NearAt(root, level, j))| + |multiset(FarAt(root, level, j))| == |multiset(cs)|;
  }

  /** Every handle in a near or interaction list names a node of that level. */
  lemma {:induction false} ListsBound(root: Box2, level: nat, j: nat)
    ensures forall c :: c in NearAt(root, level, j) ==> c < Pow4(level)
    ensures forall c :: c in FarAt(root, level, j) ==> c < Pow4(level)
  {
    if level > 0 {
      var pn := NearAt(root, level - 1, j / 4);
      ListsBound(root, level - 1, j / 4);
      assert forall k :: 0 <= k < |pn| ==> pn[k] in pn;
      CandidatesBound(pn, Pow4(level - 1));
      FiltersPartition(root, level, BoxAt(root, level, j), Candidates(pn));
    }
  }

  /** Every node is its own near neighbour. */
  lemma {:induction false} SelfIsNear(root: Box2, level: nat, j: nat)
    requires root.halfSide >= 0.0 && j < Pow4(level)
    ensures j in NearAt(root, level, j)
  {
    if level > 0 {
      var pn := NearAt(root, level - 1, j / 4);
      SelfIsNear(root, level - 1, j / 4);
      var a :| 0 <= a < |pn| && pn[a] == j / 4;
      CandidatesIndex(pn, a, j % 4);
      assert 4 * (j / 4) + j % 4 == j;
      var cs := Candidates(pn);
      assert cs[4 * a + j % 4] == j;
      BoxAtHalfSide(root, level, j);
      AdjacentReflexive(BoxAt(root, level, j));
      AdjacentIsKept(root, level, BoxAt(root, level, j), cs, 4 * a + j % 4);
    }
  }

  /** A candidate whose box is adjacent to box is on the adjacent list. */
  lemma {:induction false} AdjacentIsKept(root: Box2, level: nat, box: Box2, cs: seq<nat>, k: nat)
    requires k < |cs| && Adjacent(box, BoxAt(root, level, cs[k]))
    ensures cs[k] in Adjacents(root, level, box, cs)
  {
    if k < |cs| - 1 {
      AdjacentIsKept(root, level, box, cs[..|cs| - 1], k);
    }
  }

  lemma {:induction false} DistantsEmpty(root: Box2, level: nat, box: Box2, cs: seq<nat>)
    requires forall k :: 0 <= k < |cs| ==> Adjacent(box, BoxAt(root, level, cs[k]))
    ensures Distants(root, level, box, cs) == []
  {
    if |cs| > 0 {
      DistantsEmpty(root, level, box, cs[..|cs| - 1]);
    }
  }

  /** The interaction lists of level 1 are empty: all four children of the root
      touch one another. */
  lemma Level1HasNoInteractions(root: Box2, j: nat)
    requires root.halfSide >= 0.0 && j < 4
    ensures FarAt(root, 1, j) == []
  {
    var cs := Candidates([0]);
    assert [0][..0] == [];
    assert cs == [0, 1, 2, 3];
    forall k | 0 <= k < 4
      ensures Adjacent(BoxAt(root, 1, j), BoxAt(root, 1, cs[k]))
    {
      assert cs[k] == k;
      assert BoxAt(root, 1, k) == GetChildBox(root, k).value;
      assert BoxAt(root, 1, j) == GetChildBox(root, j).value;
      SiblingsAdjacent(root, j, k);
    }
    DistantsEmpty(root, 1, BoxAt(root, 1, j), cs);
  }

  /** A box on a node's interaction list has a different centre, so M2L's shift
      between them is non-zero. */
  lemma FarCentersDiffer(root: Box2, level: nat, j: nat, f: nat)
    requires root.halfSide >= 0.0 && f in FarAt(root, level, j)
    ensures BoxAt(root, level, f).center != BoxAt(root, level, j).center
  {
    if level > 0 {
      FiltersPartition(root, level, BoxAt(root, level, j), Candidates(NearAt(root, level - 1, j / 4)));
      BoxAtHalfSide(root, level, j);
      BoxAtHalfSide(root, level, f);
      NotAdjacentCentersDiffer(BoxAt(root, level, j), BoxAt(root, level, f));
    }
  }

  // ---------------------------------------------------------------------------
  // Leaf index

  /** The box getLeafIndex has descended to after level steps. */
  function PathBox(root: Box2, position: Vector2, level: nat): Box2 {
    if level == 0 then root
    else
      var parent := PathBox(root, position, level - 1);
      ChildBoxShape(parent, GetQuadrant(parent, position));
      GetChildBox(parent, GetQuadrant(parent, position)).value
  }

  /** The index after level steps: two more bits, the quadrant, per level. */
  function PathIndex(root: Box2, position: Vector2, level: nat): nat {
    if level == 0 then 0
    else 4 * PathIndex(root, position, level - 1) + GetQuadrant(PathBox(root, position, level - 1), position)
  }

  /** The index names a node of the level, and that node's box is the box of
      the descent. */
  lemma {:induction false} PathIndexIsNode(root: Box2, position: Vector2, level: nat)
    ensures PathIndex(root, position, level) < Pow4(level)
    ensures PathBox(root, position, level) == BoxAt(root, level, PathIndex(root, position, level))
  {
    if level > 0 {
      PathIndexIsNode(root, position, level - 1);
      var i, q := PathIndex(root, position, level - 1), GetQuadrant(PathBox(root, position, level - 1), position);
      assert (4 * i + q) / 4 == i && (4 * i + q) % 4 == q;
    }
  }

  /** A point of the root box lies in the box of its leaf. */
  lemma {:induction false} PathBoxContains(root: Box2, pt: Point, level: nat)
    requires root.Contains(pt)
    ensures PathBox(root, pt.position, level).Contains(pt)
  {
    if level > 0 {
      PathBoxContains(root, pt, level - 1);
      ChildContainsPoint(PathBox(root, pt.position, level - 1), pt);
    }
  }

  // ---------------------------------------------------------------------------
  // Points of the leaves

  /** The sources routed to leaf j, in input order. */
  function PointsIn(root: Box2, height: nat, ps: seq<Point>, j: nat): seq<Point> {
    if |ps| == 0 then []
    else
      var rest := PointsIn(root, height, ps[..|ps| - 1], j);
      if PathIndex(root, ps[|ps| - 1].position, height) == j then rest + [ps[|ps| - 1]] else rest
  }

  /** A leaf holds exactly the sources whose leaf index is its own, each as
      often as it occurs in the input. */
  lemma {:induction false} PointsInLeaf(root: Box2, height: nat, ps: seq<Point>, j: nat)
    ensures forall x :: x in PointsIn(root, height, ps, j) ==> x in ps && PathIndex(root, x.position, height) == j
    ensures forall x :: x in ps && PathIndex(root, x.position, height) == j ==>
      multiset(PointsIn(root, height, ps, j))[x] == multiset(ps)[x]
  {
    if |ps| > 0 {
      var front := ps[..|ps| - 1];
      PointsInLeaf(root, height, front, j);
      assert ps == front + [ps[|ps| - 1]];
    }
  }

  /** The number of points in leaves 0 .. n-1. */
  function CountBelow(root: Box2, height: nat, ps: seq<Point>, n: nat): nat {
    if n == 0 then 0 else CountBelow(root, height, ps, n - 1) + |PointsIn(root, height, ps, n - 1)|
  }

  lemma {:induction false} CountBelowAppend(root: Box2, height: nat, ps: seq<Point>, x: Point, n: nat)
    ensures CountBelow(root, height, ps + [x], n)
         == CountBelow(root, height, ps, n) + (if PathIndex(root, x.position, height) < n then 1 else 0)
  {
    assert (ps + [x])[..|ps|] == ps;
    if n > 0 {
      CountBelowAppend(root, height, ps, x, n - 1);
    }
  }

  /** The leaves' point counts add up to the number of sources. */
  lemma {:induction false} PointCountsSum(root: Box2, height: nat, ps: seq<Point>)
    ensures CountBelow(root, height, ps, Pow4(height)) == |ps|
  {
    if |ps| == 0 {
      ZeroCounts(root, height, ps, Pow4(height));
    } else {
      var front, x := ps[..|ps| - 1], ps[|ps| - 1];
      PointCountsSum(root, height, front);
      CountBelowAppend(root, height, front, x, Pow4(height));
      PathIndexIsNode(root, x.position, height);
      assert front + [x] == ps;
    }
  }

  lemma {:induction false} ZeroCounts(root: Box2, height: nat, ps: seq<Point>, n: nat)
    requires |ps| == 0
    ensures CountBelow(root, height, ps, n) == 0
  {
    if n > 0 {
      ZeroCounts(root, height, ps, n - 1);
    }
  }

  // ---------------------------------------------------------------------------
  // Expansions

  /** The shift from a parent's centre to its child's, as a complex number. */
  function ChildShift(root: Box2, level: nat, j: nat, q: nat): Complex {
    ToComplex(BoxAt(root, level + 1, 4 * j + q).center.Minus(BoxAt(root, level, j).center))
  }

  /** The multipole coefficients of node j once the upward pass is over: built
      from the points at a leaf, summed from the children's M2M translations on
      levels 2 .. height-1, and still zero on levels 0 and 1. */
  function MultipoleCoeffs(root: Box2, height: nat, p: nat, ps: seq<Point>, level: nat, j: nat): (r: seq<Complex>)
    requires level <= height
    ensures |r| == p + 1
    decreases height - level, 5
  {
    if level == height then BuildCoeffs(ZeroCoeffs(p + 1), ToComplex(BoxAt(root, level, j).center), PointsIn(root, height, ps, j))
    else if level < 2 then ZeroCoeffs(p + 1)
    else UpSum(root, height, p, ps, level, j, 4)
  }

  /** me after += of the first q children's M2M translations. */
  function UpSum(root: Box2, height: nat, p: nat, ps: seq<Point>, level: nat, j: nat, q: nat): (r: seq<Complex>)
    requires level < height && q <= 4
    ensures |r| == p + 1
    decreases height - level, q
  {
    if q == 0 then ZeroCoeffs(p + 1)
    else
      AddCoeffs(UpSum(root, height, p, ps, level, j, q - 1),
                M2MCoeffs(MultipoleCoeffs(root, height, p, ps, level + 1, 4 * j + q - 1), ChildShift(root, level, j, q - 1)))
  }

  /** An internal node of level 2 or below sums, from zero and in quadrant
      order, the M2M translations of its four children's coefficients. */
  lemma UpSumOfFour(root: Box2, height: nat, p: nat, ps: seq<Point>, level: nat, j: nat)
    requires 2 <= level < height
    ensures MultipoleCoeffs(root, height, p, ps, level, j) ==
      AddCoeffs(AddCoeffs(AddCoeffs(AddCoeffs(ZeroCoeffs(p + 1),
        M2MCoeffs(MultipoleCoeffs(root, height, p, ps, level + 1, 4 * j), ChildShift(root, level, j, 0))),
        M2MCoeffs(MultipoleCoeffs(root, height, p, ps, level + 1, 4 * j + 1), ChildShift(root, level, j, 1))),
        M2MCoeffs(MultipoleCoeffs(root, height, p, ps, level + 1, 4 * j + 2), ChildShift(root, level, j, 2))),
        M2MCoeffs(MultipoleCoeffs(root, height, p, ps, level + 1, 4 * j + 3), ChildShift(root, level, j, 3)))
  {
    var t := seq(4, q requires 0 <= q < 4 =>
      M2MCoeffs(MultipoleCoeffs(root, height, p, ps, level + 1, 4 * j + q), ChildShift(root, level, j, q)));
    assert UpSum(root, height, p, ps, level, j, 1) == AddCoeffs(ZeroCoeffs(p + 1), t[0]);
    assert UpSum(root, height, p, ps, level, j, 2) == AddCoeffs(UpSum(root, height, p, ps, level, j, 1), t[1]);
    assert UpSum(root, height, p, ps, level, j, 3) == AddCoeffs(UpSum(root, height, p, ps, level, j, 2), t[2]);
    assert UpSum(root, height, p, ps, level, j, 4) == AddCoeffs(UpSum(root, height, p, ps, level, j, 3), t[3]);
  }

  /** The local coefficients of node j once the downward pass is over: zero on
      levels 0 and 1; below, the parent's L2L translation plus the M2L
      conversions of the interaction list, added in list order. */
  function LocalCoeffs(root: Box2, height: nat, p: nat, ps: seq<Point>, clog: Complex -> Complex,
                       level: nat, j: nat): (r: seq<Complex>)
    requires root.halfSide >= 0.0 && level <= height
    ensures |r| == p + 1
    decreases level, |FarAt(root, level, j)| + 1
  {
    if level < 2 then ZeroCoeffs(p + 1)
    else DownSum(root, height, p, ps, clog, level, j, |FarAt(root, level, j)|)
  }

  /** The M2L conversion of interaction f's multipole about node j's centre. */
  function M2LFrom(root: Box2, height: nat, p: nat, ps: seq<Point>, clog: Complex -> Complex,
                   level: nat, j: nat, f: nat): (r: seq<Complex>)
    requires root.halfSide >= 0.0 && level <= height && f in FarAt(root, level, j)
    ensures |r| == p + 1
  {
    FarCentersDiffer(root, level, j, f);
    M2LCoeffs(MultipoleCoeffs(root, height, p, ps, level, f),
              Sub(ToComplex(BoxAt(root, level, f).center), ToComplex(BoxAt(root, level, j).center)), p, clog)
  }

  /** node.local after the L2L term and the first n interaction terms. */
  function DownSum(root: Box2, height: nat, p: nat, ps: seq<Point>, clog: Complex -> Complex,
                   level: nat, j: nat, n: nat): (r: seq<Complex>)
    requires root.halfSide >= 0.0 && 2 <= level <= height && n <= |FarAt(root, level, j)|
    ensures |r| == p + 1
    decreases level, n
  {
    if n == 0 then
      var shift := ToComplex(BoxAt(root, level - 1, j / 4).center.Minus(BoxAt(root, level, j).center));
      AddCoeffs(ZeroCoeffs(p + 1), TaylorShift(LocalCoeffs(root, height, p, ps, clog, level - 1, j / 4), shift))
    else
      var f := FarAt(root, level, j)[n - 1];
      AddCoeffs(DownSum(root, height, p, ps, clog, level, j, n - 1), M2LFrom(root, height, p, ps, clog, level, j, f))
  }

  /** The L2L term alone gives, at every point, the value of the parent's local. */
  lemma ParentShiftValue(root: Box2, height: nat, p: nat, ps: seq<Point>, clog: Complex -> Complex,
                         level: nat, j: nat, point: Vector2)
    requires root.halfSide >= 0.0 && 2 <= level <= height
    ensures LocalValue(Expansion(p, ToComplex(BoxAt(root, level, j).center), DownSum(root, height, p, ps, clog, level, j, 0)), point)
      == LocalValue(Expansion(p, ToComplex(BoxAt(root, level - 1, j / 4).center),
                              LocalCoeffs(root, height, p, ps, clog, level - 1, j / 4)), point)
  {
    var center := BoxAt(root, level, j).center;
    var parent := Expansion(p, ToComplex(BoxAt(root, level - 1, j / 4).center), LocalCoeffs(root, height, p, ps, clog, level - 1, j / 4));
    var shift := ToComplex(BoxAt(root, level - 1, j / 4).center.Minus(center));
    var shifted := TaylorShift(parent.coeffs, shift);
    assert DownSum(root, height, p, ps, clog, level, j, 0) == AddCoeffs(ZeroCoeffs(p + 1), shifted);
    AddCoeffsLaws(shifted, ZeroCoeffs(p + 1), ZeroCoeffs(p + 1));
    assert Sub(parent.center, shift) == ToComplex(center);
    L2LPreservesValue(parent, shift, point);
  }

  // ---------------------------------------------------------------------------
  // Evaluation

  /** The direct near-field sum over pts, skipping points at the query position. */
  function DirectSum(pts: seq<Point>, point: Vector2, potential: (Point, Vector2) -> real): real {
    if |pts| == 0 then 0.0
    else
      var last := pts[|pts| - 1];
      DirectSum(pts[..|pts| - 1], point, potential) + (if last.position == point then 0.0 else potential(last, point))
  }

  /** A source at the query position contributes nothing; any other source
      contributes its potential once. */
  lemma DirectSumAppend(pts: seq<Point>, x: Point, point: Vector2, potential: (Point, Vector2) -> real)
    ensures x.position == point ==> DirectSum(pts + [x], point, potential) == DirectSum(pts, point, potential)
    ensures x.position != point ==> DirectSum(pts + [x], point, potential) == DirectSum(pts, point, potential) + potential(x, point)
  {
    assert (pts + [x])[..|pts|] == pts;
  }
}
