/** NaiveFmmTree of src/fmmtree.h: a balanced quadtree over the sources'
    bounding box, built breadth first, with the point lists of its leaves, the
    multipole expansions of the upward pass, the local expansions of the
    downward pass, and the evaluation of the potential at a point.

    The tree's nodes live in per-level arenas: levels[L][j] is node j of level
    L, and every link between nodes (parent, children, near neighbours,
    interaction list) is a handle into an arena instead of a pointer. */
module FmmTrees {

  import opened Complexes
  import opened Vectors
  import opened Geometry
  import opened Outcomes
  import opened Series
  import opened Multipoles
  import opened Locals
  import opened TreeSpec

  datatype NodeType = Internal | Leaf

  datatype Option<T> = None | Some(value: T)

  /** FmmNode2: a box, its type, the points of a leaf, the links to other
      nodes, and the values of its two expansions. */
  datatype Node = Node(box: Box2, nodeType: NodeType, points: seq<Point>, parent: Option<nat>,
                       children: seq<nat>, multipole: Expansion, local: Expansion,
                       nearNeighbors: seq<nat>, interactionList: seq<nat>)
  {
    predicate IsLeaf() {
      nodeType == Leaf
    }
  }

  /** FmmNode2(p, box, type): no points, no links, both expansions zero about
      the box centre. */
  function NewNode(p: int, box: Box2, nodeType: NodeType): Node
    requires p >= -1
  {
    var c := ToComplex(box.center);
    Node(box, nodeType, [], None, [], ZeroExpansion(p, c), ZeroExpansion(p, c), [], [])
  }

  /** The child's multipole translated to the parent's box centre (M2M by the
      offset from the parent's centre to the child's): the coefficients the
      parent's sum gains from this child. */
  function Translated(parent: Node, child: Node): (r: seq<Complex>)
    requires |child.multipole.coeffs| >= 1
    ensures |r| == |child.multipole.coeffs|
  {
    M2MCoeffs(child.multipole.coeffs, ToComplex(child.box.center.Minus(parent.box.center)))
  }

  class NaiveFmmTree {
    const p: int
    const height: int
    const sources: seq<Point>
    /** Kernel::potential, the potential a source induces at a point. */
    const potential: (Point, Vector2) -> real
    /** The complex logarithm the kernel's M2L uses. */
    const clog: Complex -> Complex
    var levels: seq<seq<Node>>

    // -------------------------------------------------------------------------
    // What each node holds, stage by stage

    /** The root box: the bounding box of the sources. */
    ghost function Root(): Box2 {
      BoundingBox(sources)
    }

    /** The handle of the leaf whose box getLeafIndex descends to. */
    ghost function LeafOf(position: Vector2): (j: nat)
      requires height >= 0
      ensures j < Pow4(height)
    {
      PathIndexIsNode(Root(), position, height);
      PathIndex(Root(), position, height)
    }

    /** Node j of level L just after its parent's buildChildNodes pushed it. */
    ghost function FreshNode(level: nat, j: nat): Node
      requires p >= 0
    {
      NewNode(p, BoxAt(Root(), level, j), Leaf).(parent := if level == 0 then None else Some(j / 4))
    }

    /** Node j of level L once buildChildNodes and computeNodeLists ran on it. */
    ghost function LinkedNode(level: nat, j: nat): Node
      requires p >= 0
    {
      FreshNode(level, j).(nodeType := if level == height then Leaf else Internal,
                           children := if level == height then [] else ChildHandles(j),
                           nearNeighbors := NearAt(Root(), level, j),
                           interactionList := FarAt(Root(), level, j))
    }

    /** Node j of level L once the constructor has returned. */
    ghost function FinalNode(level: nat, j: nat): Node
      requires p >= 0 && level <= height
    {
      LinkedNode(level, j).(points := if level == height then PointsIn(Root(), height, sources, j) else [],
                            multipole := FinalMultipole(level, j),
                            local := FinalLocal(level, j))
    }

    /** The multipole of node j of level L after the upward pass, about the box centre. */
    ghost function FinalMultipole(level: nat, j: nat): Expansion
      requires p >= 0 && level <= height
    {
      Expansion(p, ToComplex(BoxAt(Root(), level, j).center), MultipoleCoeffs(Root(), height, p, sources, level, j))
    }

    /** The local of node j of level L after the downward pass, about the box centre. */
    ghost function FinalLocal(level: nat, j: nat): Expansion
      requires p >= 0 && level <= height
    {
      BoundingBoxContainsAll(sources);
      Expansion(p, ToComplex(BoxAt(Root(), level, j).center), LocalCoeffs(Root(), height, p, sources, clog, level, j))
    }

    /** The multipole of (level, j) is final once the upward pass has gone past
        it: the passes run from the leaves up, and within a level in order. */
    ghost predicate UpDone(level: nat, j: nat, u: int, mi: int) {
      level > u || (level == u && j < mi)
    }

    /** The local of (level, j) is final once the downward pass has gone past it. */
    ghost predicate DownDone(level: nat, j: nat, d: int, li: int) {
      level < d || (level == d && j < li)
    }

    /** Node j of level L when the first s sources have been routed to the
        leaves, the upward pass has reached node mi of level u and the
        downward pass node li of level d. */
    ghost function StagedNode(level: nat, j: nat, s: nat, u: int, mi: int, d: int, li: int): Node
      requires p >= 0 && level <= height && s <= |sources|
    {
      var f := FinalNode(level, j);
      var c := ToComplex(f.box.center);
      f.(points := if level == height then PointsIn(Root(), height, sources[..s], j) else [],
         multipole := if UpDone(level, j, u, mi) then f.multipole else ZeroExpansion(p, c),
         local := if DownDone(level, j, d, li) then f.local else ZeroExpansion(p, c))
    }

    /** levels_ has height + 1 levels and level L has 4^L nodes. */
    ghost predicate LevelsSized(lv: seq<seq<Node>>) {
      height >= 0 && |lv| == height + 1 && forall level :: 0 <= level <= height ==> |lv[level]| == Pow4(level)
    }

    ghost predicate Staged(lv: seq<seq<Node>>, s: nat, u: int, mi: int, d: int, li: int) {
      && p >= 0 && height >= 1 && s <= |sources| && LevelsSized(lv)
      && forall level, j :: 0 <= level <= height && 0 <= j < Pow4(level) ==>
           lv[level][j] == StagedNode(level, j, s, u, mi, d, li)
    }

    /** A built tree: every node holds its final contents. */
    ghost predicate Valid()
      reads this
    {
      && p >= 0 && height >= 1 && LevelsSized(levels)
      && forall level, j {:trigger FinalNode(level, j)} :: 0 <= level <= height && 0 <= j < Pow4(level) ==>
           levels[level][j] == FinalNode(level, j)
    }

    // -------------------------------------------------------------------------
    // Construction

    /** NaiveFmmTree(p, sources, height). Height 0 leaves the tree empty. */
    constructor (p: int, sources: seq<Point>, height: int,
                 potential: (Point, Vector2) -> real, clog: Complex -> Complex)
      requires height >= 0
      requires height >= 1 ==> p >= 0
      ensures this.p == p && this.sources == sources && this.height == height
      ensures this.potential == potential && this.clog == clog
      ensures height == 0 ==> levels == []
      ensures height >= 1 ==> Valid()
    {
      this.p := p;
      this.height := height;
      this.sources := sources;
      this.potential := potential;
      this.clog := clog;
      levels := [];
      new;
      if height == 0 {
        return;
      }
      var rootBox := ComputeBoundingBox(sources);
      levels := [[NewNode(p, rootBox, Leaf)]] + seq(height, _ => []);
      BuildLevels();
      AssignPoints();
      FormLeafMultipoles();
      UpwardPass();
      DownwardPass();
      assert sources[..|sources|] == sources;
    }

    /** Nodes lo .. hi-1 of row are as buildChildNodes pushed them. */
    ghost predicate FreshRange(row: seq<Node>, level: nat, lo: nat, hi: nat)
      requires p >= 0
    {
      hi <= |row| && forall k :: lo <= k < hi ==> row[k] == FreshNode(level, k)
    }

    /** Nodes lo .. hi-1 of row have their children and lists. */
    ghost predicate LinkedRange(row: seq<Node>, level: nat, lo: nat, hi: nat)
      requires p >= 0
    {
      hi <= |row| && forall k :: lo <= k < hi ==> row[k] == LinkedNode(level, k)
    }

    /** The levels above level are linked, level itself holds its fresh
        nodes and the levels below are still empty. */
    ghost predicate BuiltUpTo(lv: seq<seq<Node>>, level: nat)
      requires p >= 0
    {
      && |lv| == height + 1
      && (forall L :: 0 <= L < level && L <= height ==> |lv[L]| == Pow4(L) && LinkedRange(lv[L], L, 0, Pow4(L)))
      && (level <= height ==> |lv[level]| == Pow4(level) && FreshRange(lv[level], level, 0, Pow4(level)))
      && (forall L :: level < L <= height ==> |lv[L]| == 0)
    }

    /** The constructor's first loop: level by level, every node gets its children
        and then its near-neighbour and interaction lists. */
    method BuildLevels()
      requires p >= 0 && height >= 1
      requires levels == [[FreshNode(0, 0)]] + seq(height, _ => [])
      modifies this
      ensures Staged(levels, 0, height, 0, 0, 0)
    {
      assert levels[0] == [FreshNode(0, 0)];
      assert forall L :: 1 <= L <= height ==> levels[L] == [];
      var level := 0;
      while level <= height
        invariant 0 <= level <= height + 1 && BuiltUpTo(levels, level)
      {
        BuildLevel(level);
        level := level + 1;
      }
      LinkedIsStart();
    }

    /** The nodes of one level, in order. */
    method BuildLevel(level: nat)
      requires p >= 0 && level <= height && BuiltUpTo(levels, level)
      modifies this
      ensures BuiltUpTo(levels, level + 1)
    {
      var i := 0;
      while i < |levels[level]|
        invariant i <= Pow4(level) && LinkedUpTo(levels, level, i)
      {
        LinkNode(level, i);
        i := i + 1;
      }
    }

    /** Part way through a level: nodes 0 .. i-1 of it are linked, the rest
        are fresh, and the level below holds the children of the first i. */
    ghost predicate LinkedUpTo(lv: seq<seq<Node>>, level: nat, i: nat)
      requires p >= 0
    {
      && level <= height && |lv| == height + 1
      && (forall L :: 0 <= L < level ==> |lv[L]| == Pow4(L) && LinkedRange(lv[L], L, 0, Pow4(L)))
      && |lv[level]| == Pow4(level)
      && LinkedRange(lv[level], level, 0, i) && FreshRange(lv[level], level, i, Pow4(level))
      && (level < height ==> |lv[level + 1]| == 4 * i && FreshRange(lv[level + 1], level + 1, 0, 4 * i))
      && (forall L :: level + 1 < L <= height ==> |lv[L]| == 0)
    }

    /** One iteration of the first loop of the constructor: buildChildNodes and
        then computeNodeLists on node i of the level. */
    method LinkNode(level: nat, i: nat)
      requires p >= 0 && i < Pow4(level) && LinkedUpTo(levels, level, i)
      modifies this
      ensures LinkedUpTo(levels, level, i + 1)
    {
      ghost var before := levels;
      assert levels[level][i] == FreshNode(level, i);
      BuildChildNodes(level, i);
      ghost var mid := levels;
      ListsReady(before, levels, level, i);
      ComputeNodeLists(level, i);
      LinkedUpToStep(before, mid, levels, level, i);
    }

    /** After buildChildNodes on node i, what computeNodeLists needs of the tree. */
    lemma ListsReady(lv: seq<seq<Node>>, mid: seq<seq<Node>>, level: nat, i: nat)
      requires p >= 0 && i < Pow4(level) && LinkedUpTo(lv, level, i)
      requires |mid| == |lv| && mid[level] == lv[level][i := FreshNode(level, i).(
        nodeType := if level == height then Leaf else Internal,
        children := if level == height then [] else ChildHandles(i))]
      requires forall L :: 0 <= L <= height && L != level && L != level + 1 ==> mid[L] == lv[L]
      ensures |mid[level]| == Pow4(level)
      ensures mid[level][i].parent == if level == 0 then None else Some(i / 4)
      ensures mid[level][i].nearNeighbors == [] && mid[level][i].interactionList == []
      ensures mid[level][i].(nearNeighbors := NearAt(Root(), level, i), interactionList := FarAt(Root(), level, i))
           == LinkedNode(level, i)
      ensures forall k :: 0 <= k < Pow4(level) ==> mid[level][k].box == BoxAt(Root(), level, k)
      ensures level >= 1 ==>
        && |mid[level - 1]| == Pow4(level - 1)
        && (forall k :: 0 <= k < Pow4(level - 1) ==> mid[level - 1][k].children == ChildHandles(k))
        && mid[level - 1][i / 4].nearNeighbors == NearAt(Root(), level - 1, i / 4)
    {
      RowBoxes(mid[level], level, i);
      if level >= 1 {
        assert mid[level - 1] == lv[level - 1];
        ParentRow(mid[level - 1], level - 1, i / 4);
      }
    }

    /** The state after LinkNode, from what its two calls establish: lv before
        buildChildNodes, mid between the calls, lv2 after computeNodeLists. */
    lemma LinkedUpToStep(lv: seq<seq<Node>>, mid: seq<seq<Node>>, lv2: seq<seq<Node>>, level: nat, i: nat)
      requires p >= 0 && i < Pow4(level) && LinkedUpTo(lv, level, i)
      requires |mid| == height + 1 && mid[level] == lv[level][i := FreshNode(level, i).(
        nodeType := if level == height then Leaf else Internal,
        children := if level == height then [] else ChildHandles(i))]
      requires level < height ==>
        && |mid[level + 1]| == 4 * i + 4
        && mid[level + 1][..4 * i] == lv[level + 1]
        && FreshRange(mid[level + 1], level + 1, 4 * i, 4 * i + 4)
      requires forall L :: 0 <= L <= height && L != level && L != level + 1 ==> mid[L] == lv[L]
      requires lv2 == mid[level := mid[level][i := mid[level][i].(
        nearNeighbors := NearAt(Root(), level, i), interactionList := FarAt(Root(), level, i))]]
      ensures LinkedUpTo(lv2, level, i + 1)
    {
      assert lv2[level] == lv[level][i := LinkedNode(level, i)];
      RowStep(lv[level], lv2[level], level, i);
      if level < height {
        assert lv2[level + 1] == mid[level + 1];
        FreshAppend(lv[level + 1], lv2[level + 1], level + 1, 4 * i);
      }
      forall L | 0 <= L < level ensures |lv2[L]| == Pow4(L) && LinkedRange(lv2[L], L, 0, Pow4(L)) {
        assert lv2[L] == mid[L] == lv[L];
      }
      forall L | level + 1 < L <= height ensures |lv2[L]| == 0 {
        assert lv2[L] == mid[L] == lv[L];
      }
    }

    /** A row whose nodes are linked or fresh, with node i in between, has the
        boxes of its level. */
    lemma RowBoxes(row: seq<Node>, level: nat, i: nat)
      requires p >= 0 && i < Pow4(level) && |row| == Pow4(level)
      requires LinkedRange(row, level, 0, i) && FreshRange(row, level, i + 1, Pow4(level))
      requires row[i].box == BoxAt(Root(), level, i)
      ensures forall k :: 0 <= k < Pow4(level) ==> row[k].box == BoxAt(Root(), level, k)
    {
      forall k | 0 <= k < Pow4(level) ensures row[k].box == BoxAt(Root(), level, k) {
        if k < i {
          assert row[k] == LinkedNode(level, k);
        } else if k > i {
          assert row[k] == FreshNode(level, k);
        }
      }
    }

    /** On a linked level above the leaves, every node has its four children
        and node j its near neighbours. */
    lemma ParentRow(row: seq<Node>, level: nat, j: nat)
      requires p >= 0 && level < height && j < Pow4(level) && |row| == Pow4(level)
      requires LinkedRange(row, level, 0, Pow4(level))
      ensures forall k :: 0 <= k < Pow4(level) ==> row[k].children == ChildHandles(k)
      ensures row[j].nearNeighbors == NearAt(Root(), level, j)
    {
      assert row[j] == LinkedNode(level, j);
      forall k | 0 <= k < Pow4(level) ensures row[k].children == ChildHandles(k) {
        assert row[k] == LinkedNode(level, k);
      }
    }

    /** Linking node i of a row moves the boundary between linked and fresh by one. */
    lemma RowStep(row: seq<Node>, row2: seq<Node>, level: nat, i: nat)
      requires p >= 0 && i < Pow4(level) && |row| == Pow4(level)
      requires LinkedRange(row, level, 0, i) && FreshRange(row, level, i, Pow4(level))
      requires row2 == row[i := LinkedNode(level, i)]
      ensures LinkedRange(row2, level, 0, i + 1) && FreshRange(row2, level, i + 1, Pow4(level))
    {
      forall k | 0 <= k < i + 1 ensures row2[k] == LinkedNode(level, k) {
        if k < i {
          assert row[k] == LinkedNode(level, k);
        }
      }
      forall k | i + 1 <= k < Pow4(level) ensures row2[k] == FreshNode(level, k) {
        assert row[k] == FreshNode(level, k);
      }
    }

    /** Four fresh children pushed behind n fresh nodes leave n + 4 fresh nodes. */
    lemma FreshAppend(row: seq<Node>, row2: seq<Node>, level: nat, n: nat)
      requires p >= 0 && |row| == n && FreshRange(row, level, 0, n)
      requires |row2| == n + 4 && row2[..n] == row && FreshRange(row2, level, n, n + 4)
      ensures FreshRange(row2, level, 0, n + 4)
    {
      forall k | 0 <= k < n + 4 ensures row2[k] == FreshNode(level, k) {
        if k < n {
          assert row2[k] == row2[..n][k] == row[k];
        }
      }
    }

    /** Once every node is linked, the tree is at the start of the later stages. */
    lemma LinkedIsStart()
      requires p >= 0 && height >= 1 && BuiltUpTo(levels, height + 1)
      ensures Staged(levels, 0, height, 0, 0, 0)
    {
      forall L, j | 0 <= L <= height && 0 <= j < Pow4(L)
        ensures levels[L][j] == StagedNode(L, j, 0, height, 0, 0, 0)
      {
        assert LinkedRange(levels[L], L, 0, Pow4(L));
        assert sources[..0] == [];
      }
    }

    /** buildChildNodes(node, level): a leaf-level node becomes a Leaf; any
        other becomes Internal and gets four fresh children, quadrant by
        quadrant, each pushed onto the next level. */
    method BuildChildNodes(level: nat, i: nat)
      requires p >= 0 && level <= height && |levels| == height + 1
      requires i < |levels[level]| && levels[level][i] == FreshNode(level, i)
      requires level < height ==> |levels[level + 1]| == 4 * i
      modifies this
      ensures |levels| == height + 1
      ensures levels[level] == old(levels[level])[i := FreshNode(level, i).(
        nodeType := if level == height then Leaf else Internal,
        children := if level == height then [] else ChildHandles(i))]
      ensures level < height ==>
        && |levels[level + 1]| == 4 * i + 4
        && levels[level + 1][..4 * i] == old(levels[level + 1])
        && FreshRange(levels[level + 1], level + 1, 4 * i, 4 * i + 4)
      ensures forall L :: 0 <= L <= height && L != level && L != level + 1 ==> levels[L] == old(levels[L])
    {
      var node := levels[level][i];
      if level == height {
        levels := levels[level := levels[level][i := node.(nodeType := Leaf)]];
        return;
      }
      node := node.(nodeType := Internal);
      var q := 0;
      while q < 4
        invariant 0 <= q <= 4 && |levels| == height + 1
        invariant node == FreshNode(level, i).(nodeType := Internal, children := ChildHandles(i)[..q])
        invariant |levels[level + 1]| == 4 * i + q
        invariant levels[level + 1][..4 * i] == old(levels[level + 1])
        invariant FreshRange(levels[level + 1], level + 1, 4 * i, 4 * i + q)
        invariant forall L :: 0 <= L <= height && L != level + 1 ==> levels[L] == old(levels[L])
      {
        ChildBoxShape(node.box, q);
        var childBox := GetChildBox(node.box, q).value;
        var child := NewNode(p, childBox, Leaf).(parent := Some(i));
        assert (4 * i + q) / 4 == i && (4 * i + q) % 4 == q;
        assert child == FreshNode(level + 1, 4 * i + q);
        var handle := |levels[level + 1]|;
        assert ChildHandles(i)[..q + 1] == ChildHandles(i)[..q] + [handle];
        node := node.(children := node.children + [handle]);
        levels := levels[level + 1 := levels[level + 1] + [child]];
        q := q + 1;
      }
      assert ChildHandles(i)[..4] == ChildHandles(i);
      levels := levels[level := levels[level][i := node]];
    }

    /** computeNodeLists(node): the root is its own only near neighbour; any
        other node examines the children of its parent's near neighbours, in
        order, and files each under near_neighbors when the boxes touch and
        under interaction_list otherwise. */
    method ComputeNodeLists(level: nat, i: nat)
      requires p >= 0 && level <= height && |levels| == height + 1
      requires |levels[level]| == Pow4(level) && i < Pow4(level)
      requires levels[level][i].parent == if level == 0 then None else Some(i / 4)
      requires levels[level][i].nearNeighbors == [] && levels[level][i].interactionList == []
      requires forall k :: 0 <= k < Pow4(level) ==> levels[level][k].box == BoxAt(Root(), level, k)
      requires level >= 1 ==>
        && |levels[level - 1]| == Pow4(level - 1)
        && (forall k :: 0 <= k < Pow4(level - 1) ==> levels[level - 1][k].children == ChildHandles(k))
        && levels[level - 1][i / 4].nearNeighbors == NearAt(Root(), level - 1, i / 4)
      modifies this
      ensures levels == old(levels)[level := old(levels[level])[i := old(levels[level][i]).(
        nearNeighbors := NearAt(Root(), level, i), interactionList := FarAt(Root(), level, i))]]
    {
      var node := levels[level][i];
      if node.parent.None? {
        assert level == 0 && i == 0;
        assert node.nearNeighbors + [i] == NearAt(Root(), level, i) && node.interactionList == FarAt(Root(), level, i);
        levels := levels[level := levels[level][i := node.(nearNeighbors := node.nearNeighbors + [i])]];
        return;
      }
      var parent := levels[level - 1][node.parent.value];
      ListsBound(Root(), level - 1, i / 4);
      var near, far := FilterCandidates(level, node.box, parent.nearNeighbors);
      levels := levels[level := levels[level][i := node.(nearNeighbors := near, interactionList := far)]];
    }

    /** The double loop of computeNodeLists: the children of the parent's near
        neighbours pn, neighbour by neighbour and quadrant by quadrant, split
        by adjacency to box. */
    method FilterCandidates(level: nat, box: Box2, pn: seq<nat>) returns (near: seq<nat>, far: seq<nat>)
      requires 1 <= level <= height && |levels| == height + 1
      requires |levels[level]| == Pow4(level) && |levels[level - 1]| == Pow4(level - 1)
      requires forall k :: 0 <= k < Pow4(level) ==> levels[level][k].box == BoxAt(Root(), level, k)
      requires forall k :: 0 <= k < Pow4(level - 1) ==> levels[level - 1][k].children == ChildHandles(k)
      requires forall c :: c in pn ==> c < Pow4(level - 1)
      ensures near == Adjacents(Root(), level, box, Candidates(pn))
      ensures far == Distants(Root(), level, box, Candidates(pn))
    {
      near, far := [], [];
      var a := 0;
      while a < |pn|
        invariant 0 <= a <= |pn|
        invariant near == Adjacents(Root(), level, box, Candidates(pn[..a]))
        invariant far == Distants(Root(), level, box, Candidates(pn[..a]))
      {
        assert pn[a] in pn;
        near, far := FilterChildren(level, box, pn[a], near, far, Candidates(pn[..a]));
        assert pn[..a + 1][..a] == pn[..a];
        a := a + 1;
      }
      assert pn[..|pn|] == pn;
    }

    /** The inner loop of computeNodeLists, over the four children of one
        parent neighbour, appended behind the candidates already split. */
    method FilterChildren(level: nat, box: Box2, handle: nat, near0: seq<nat>, far0: seq<nat>, ghost before: seq<nat>)
      returns (near: seq<nat>, far: seq<nat>)
      requires 1 <= level <= height && |levels| == height + 1
      requires |levels[level]| == Pow4(level) && handle < |levels[level - 1]| && handle < Pow4(level - 1)
      requires forall k :: 0 <= k < Pow4(level) ==> levels[level][k].box == BoxAt(Root(), level, k)
      requires levels[level - 1][handle].children == ChildHandles(handle)
      requires near0 == Adjacents(Root(), level, box, before) && far0 == Distants(Root(), level, box, before)
      ensures near == Adjacents(Root(), level, box, before + ChildHandles(handle))
      ensures far == Distants(Root(), level, box, before + ChildHandles(handle))
    {
      var parentNeighbor := levels[level - 1][handle];
      near, far := near0, far0;
      assert before + ChildHandles(handle)[..0] == before;
      var q := 0;
      while q < 4
        invariant 0 <= q <= 4
        invariant near == Adjacents(Root(), level, box, before + ChildHandles(handle)[..q])
        invariant far == Distants(Root(), level, box, before + ChildHandles(handle)[..q])
      {
        var child := parentNeighbor.children[q];
        assert child == 4 * handle + q < Pow4(level);
        ghost var cs := before + ChildHandles(handle)[..q];
        assert ChildHandles(handle)[..q + 1] == ChildHandles(handle)[..q] + [child];
        assert cs + [child] == before + ChildHandles(handle)[..q + 1];
        near, far := FileCandidate(level, box, child, near, far, cs);
        q := q + 1;
      }
      assert ChildHandles(handle)[..4] == ChildHandles(handle);
    }

    /** The if of computeNodeLists' inner loop: one candidate goes to
        near_neighbors when its box touches box, else to interaction_list. */
    method FileCandidate(level: nat, box: Box2, child: nat, near0: seq<nat>, far0: seq<nat>, ghost cs: seq<nat>)
      returns (near: seq<nat>, far: seq<nat>)
      requires |levels| > level && child < |levels[level]|
      requires levels[level][child].box == BoxAt(Root(), level, child)
      requires near0 == Adjacents(Root(), level, box, cs) && far0 == Distants(Root(), level, box, cs)
      ensures near == Adjacents(Root(), level, box, cs + [child])
      ensures far == Distants(Root(), level, box, cs + [child])
    {
      SplitStep(Root(), level, box, cs, child);
      if Adjacent(box, levels[level][child].box) {
        near, far := near0 + [child], far0;
      } else {
        near, far := near0, far0 + [child];
      }
    }

    /** The loop over the sources: each one is appended to the points of the
        leaf getLeafIndex names, in input order. */
    method AssignPoints()
      requires Staged(levels, 0, height, 0, 0, 0)
      modifies this
      ensures Staged(levels, |sources|, height, 0, 0, 0)
    {
      var s := 0;
      while s < |sources|
        invariant s <= |sources| && Staged(levels, s, height, 0, 0, 0)
      {
        var pt := sources[s];
        var leafIndex := GetLeafIndex(pt.position);
        var leaf := levels[height][leafIndex];
        levels := levels[height := levels[height][leafIndex := leaf.(points := leaf.points + [pt])]];
        forall j | 0 <= j < Pow4(height)
          ensures PointsIn(Root(), height, sources[..s + 1], j)
               == if j == leafIndex then PointsIn(Root(), height, sources[..s], j) + [pt]
                  else PointsIn(Root(), height, sources[..s], j)
        {
          assert sources[..s + 1][..s] == sources[..s];
        }
        s := s + 1;
      }
    }

    /** getLeafIndex(position): descend from the root box, two bits (the
        quadrant) per level; (index << 2) | quadrant is 4 index + quadrant as
        quadrant < 4. */
    method GetLeafIndex(position: Vector2) returns (index: nat)
      requires LevelsSized(levels) && levels[0][0].box == Root()
      ensures index == LeafOf(position)
    {
      index := 0;
      var bbox := levels[0][0].box;
      var level := 0;
      while level < height
        invariant 0 <= level <= height
        invariant index == PathIndex(Root(), position, level) && bbox == PathBox(Root(), position, level)
      {
        var quadrant := GetQuadrant(bbox, position);
        index := index * 4 + quadrant;
        ChildBoxShape(bbox, quadrant);
        bbox := GetChildBox(bbox, quadrant).value;
        level := level + 1;
      }
    }

    /** The number of leaves, 4^height: one on a tree of height 0, and the size
        of the leaf level on a built tree. */
    function NumLeaves(): (n: nat)
      reads this
      requires height >= 0
      ensures height == 0 ==> n == 1
      ensures LevelsSized(levels) ==> n == |levels[height]|
    {
      Pow4(height)
    }

    /** Moving one node to a later stage, when no other node changes stage. */
    lemma StagedStep(lv: seq<seq<Node>>, level: nat, j: nat, n: Node, s: nat,
                     u: int, mi: int, d: int, li: int, u2: int, mi2: int, d2: int, li2: int)
      requires Staged(lv, s, u, mi, d, li)
      requires level <= height && j < Pow4(level)
      requires n == StagedNode(level, j, s, u2, mi2, d2, li2)
      requires forall L, k :: 0 <= L <= height && 0 <= k < Pow4(L) && (L != level || k != j) ==>
        UpDone(L, k, u, mi) == UpDone(L, k, u2, mi2) && DownDone(L, k, d, li) == DownDone(L, k, d2, li2)
      ensures Staged(lv[level := lv[level][j := n]], s, u2, mi2, d2, li2)
    {
      var lv2 := lv[level := lv[level][j := n]];
      forall L, k | 0 <= L <= height && 0 <= k < Pow4(L)
        ensures lv2[L][k] == StagedNode(L, k, s, u2, mi2, d2, li2)
      {
        if L != level || k != j {
          assert lv2[L][k] == lv[L][k];
        }
      }
    }

    /** Nodes lo .. hi-1 of row hold their boxes and their final multipoles. */
    ghost predicate MultipolesFinal(row: seq<Node>, level: nat, lo: nat, hi: nat)
      requires p >= 0 && level <= height
    {
      hi <= |row| && forall k :: lo <= k < hi ==> row[k].box == BoxAt(Root(), level, k) && row[k].multipole == FinalMultipole(level, k)
    }

    /** Once a stage is past a level, the level's multipoles are final. */
    lemma StagedMultipoles(level: nat, lo: nat, hi: nat, s: nat, u: int, mi: int, d: int, li: int)
      requires Staged(levels, s, u, mi, d, li) && level <= height && hi <= Pow4(level)
      requires forall k :: lo <= k < hi ==> UpDone(level, k, u, mi)
      ensures MultipolesFinal(levels[level], level, lo, hi)
    {
      forall k | lo <= k < hi
        ensures levels[level][k].box == BoxAt(Root(), level, k) && levels[level][k].multipole == FinalMultipole(level, k)
      {
        assert levels[level][k] == StagedNode(level, k, s, u, mi, d, li);
      }
    }

    /** Step 1: every leaf's multipole is built from the leaf's points. */
    method FormLeafMultipoles()
      requires Staged(levels, |sources|, height, 0, 0, 0)
      modifies this
      ensures Staged(levels, |sources|, height - 1, 0, 0, 0)
    {
      var i := 0;
      while i < NumLeaves()
        invariant i <= Pow4(height) && Staged(levels, |sources|, height, i, 0, 0)
      {
        FormLeaf(i);
        i := i + 1;
      }
      assert Staged(levels, |sources|, height - 1, 0, 0, 0);
    }

    /** Leaf i's multipole becomes the expansion built from its points. */
    method FormLeaf(i: nat)
      requires Staged(levels, |sources|, height, i, 0, 0) && i < Pow4(height)
      modifies this
      ensures Staged(levels, |sources|, height, i + 1, 0, 0)
    {
      var leaf := levels[height][i];
      assert leaf == StagedNode(height, i, |sources|, height, i, 0, 0);
      assert sources[..|sources|] == sources;
      var multipole := new MultipoleExpansion.FromCoeffs(ToVector(leaf.multipole.center), leaf.multipole.coeffs);
      multipole.BuildExpansion(leaf.points);
      var node := leaf.(multipole := multipole.Value());
      assert node.multipole == FinalMultipole(height, i);
      StagedStep(levels, height, i, node, |sources|, height, i, 0, 0, height, i + 1, 0, 0);
      levels := levels[height := levels[height][i := node]];
    }

    /** Step 2: from level height-1 up to level 2, each node's multipole is the
        sum of its children's multipoles translated to its centre. */
    method UpwardPass()
      requires Staged(levels, |sources|, height - 1, 0, 0, 0)
      modifies this
      ensures Staged(levels, |sources|, 0, 1, 0, 0)
    {
      var level := height - 1;
      while level >= 2
        invariant 0 <= level < height
        invariant Staged(levels, |sources|, level, 0, 0, 0)
      {
        var i := 0;
        while i < |levels[level]|
          invariant i <= Pow4(level) && Staged(levels, |sources|, level, i, 0, 0)
        {
          CombineChildren(level, i);
          i := i + 1;
        }
        assert Staged(levels, |sources|, level - 1, 0, 0, 0);
        level := level - 1;
      }
      assert Staged(levels, |sources|, 0, 1, 0, 0);
    }

    /** One node of step 2: node i's multipole becomes the sum of its four
        children's translated multipoles. */
    method CombineChildren(level: nat, i: nat)
      requires 2 <= level < height && i < Pow4(level)
      requires Staged(levels, |sources|, level, i, 0, 0)
      modifies this
      ensures Staged(levels, |sources|, level, i + 1, 0, 0)
    {
      var node := levels[level][i];
      assert node == StagedNode(level, i, |sources|, level, i, 0, 0);
      StagedMultipoles(level + 1, 4 * i, 4 * i + 4, |sources|, level, i, 0, 0);
      var me := SumChildMultipoles(level, i, node);
      var updated := node.(multipole := me);
      StagedStep(levels, level, i, updated, |sources|, level, i, 0, 0, level, i + 1, 0, 0);
      levels := levels[level := levels[level][i := updated]];
    }

    /** me starts at zero about the node's centre and gains, child by child,
        the child's multipole shifted by M2M to that centre; every += is on
        expansions of equal order and centre, so none throws. */
    method SumChildMultipoles(level: nat, i: nat, node: Node) returns (me: Expansion)
      requires p >= 0 && 2 <= level < height && i < Pow4(level) && LevelsSized(levels)
      requires node.box == BoxAt(Root(), level, i) && node.children == ChildHandles(i)
      requires MultipolesFinal(levels[level + 1], level + 1, 4 * i, 4 * i + 4)
      ensures me == FinalMultipole(level, i)
    {
      var acc := new MultipoleExpansion(p, node.box.center);
      var q := 0;
      while q < 4
        invariant 0 <= q <= 4 && acc.Valid()
        invariant acc.Value() == Expansion(p, ToComplex(node.box.center), UpSum(Root(), height, p, sources, level, i, q))
      {
        var translated := TranslatedChild(level, i, q, node);
        assert UpSum(Root(), height, p, sources, level, i, q + 1) == AddCoeffs(UpSum(Root(), height, p, sources, level, i, q),
          M2MCoeffs(FinalMultipole(level + 1, 4 * i + q).coeffs, ChildShift(Root(), level, i, q)));
        var status := acc.AddAssign(translated);
        assert status == Completed;
        q := q + 1;
      }
      me := acc.Value();
    }

    /** Child q of node i, its multipole translated to node i's centre (M2M by
        the offset from the node's centre to the child's). */
    method TranslatedChild(level: nat, i: nat, q: nat, node: Node) returns (translated: MultipoleExpansion)
      requires p >= 0 && 2 <= level < height && i < Pow4(level) && q < 4 && LevelsSized(levels)
      requires node.box == BoxAt(Root(), level, i) && node.children == ChildHandles(i)
      requires MultipolesFinal(levels[level + 1], level + 1, 4 * i, 4 * i + 4)
      ensures fresh(translated) && translated.Valid()
      ensures translated.Value() == Expansion(p, ToComplex(node.box.center),
        M2MCoeffs(FinalMultipole(level + 1, 4 * i + q).coeffs, ChildShift(Root(), level, i, q)))
    {
      var handle := node.children[q];
      assert handle == 4 * i + q;
      var child := levels[level + 1][handle];
      var shift := child.box.center.Minus(node.box.center);
      var childMultipole := new MultipoleExpansion.FromCoeffs(ToVector(child.multipole.center), child.multipole.coeffs);
      translated := childMultipole.M2M(ToComplex(shift));
    }

    /** Step 3: from level 2 down to the leaves, each node's local gains its
        parent's local shifted by L2L and the M2L conversion of every multipole
        on its interaction list. */
    method DownwardPass()
      requires Staged(levels, |sources|, 0, 1, 0, 0)
      modifies this
      ensures Staged(levels, |sources|, 0, 1, height + 1, 0)
    {
      assert Staged(levels, |sources|, 0, 1, 2, 0);
      var level := 2;
      while level <= height
        invariant 2 <= level <= height + 1
        invariant Staged(levels, |sources|, 0, 1, level, 0)
      {
        var i := 0;
        while i < |levels[level]|
          invariant i <= Pow4(level) && Staged(levels, |sources|, 0, 1, level, i)
        {
          GatherLocal(level, i);
          i := i + 1;
        }
        assert Staged(levels, |sources|, 0, 1, level + 1, 0);
        level := level + 1;
      }
    }

    /** One node of step 3. */
    method GatherLocal(level: nat, i: nat)
      requires 2 <= level <= height && i < Pow4(level)
      requires Staged(levels, |sources|, 0, 1, level, i)
      modifies this
      ensures Staged(levels, |sources|, 0, 1, level, i + 1)
    {
      var node := levels[level][i];
      assert node == StagedNode(level, i, |sources|, 0, 1, level, i);
      var parent := levels[level - 1][i / 4];
      assert parent == StagedNode(level - 1, i / 4, |sources|, 0, 1, level, i);
      StagedMultipoles(level, 0, Pow4(level), |sources|, 0, 1, level, i);
      var local := SumLocal(level, i, node, parent);
      var updated := node.(local := local);
      StagedStep(levels, level, i, updated, |sources|, 0, 1, level, i, 0, 1, level, i + 1);
      levels := levels[level := levels[level][i := updated]];
    }

    /** Node i's local gains its parent's local shifted to its centre, then the
        M2L conversion of each interaction's multipole, in list order. The
        interaction list only names boxes whose centres differ from the
        node's, so every M2L shift is non-zero, and no += throws. */
    method SumLocal(level: nat, i: nat, node: Node, parent: Node) returns (local: Expansion)
      requires p >= 0 && 2 <= level <= height && i < Pow4(level) && LevelsSized(levels)
      requires node.box == BoxAt(Root(), level, i) && node.parent == Some(i / 4)
      requires node.local == ZeroExpansion(p, ToComplex(node.box.center))
      requires node.interactionList == FarAt(Root(), level, i)
      requires parent.box == BoxAt(Root(), level - 1, i / 4) && parent.local == FinalLocal(level - 1, i / 4)
      requires MultipolesFinal(levels[level], level, 0, Pow4(level))
      ensures local == FinalLocal(level, i)
    {
      BoundingBoxContainsAll(sources);
      var acc := StartLocal(level, i, node, parent);
      ghost var far := FarAt(Root(), level, i);
      ghost var sums := seq(|far| + 1, n requires 0 <= n <= |far| => DownSum(Root(), height, p, sources, clog, level, i, n));
      InteractionSteps(level, i);
      AddInteractions(acc, level, node.box.center, node.interactionList, sums);
      local := acc.Value();
    }

    /** The node's zero local gains its parent's local shifted to its centre. */
    method StartLocal(level: nat, i: nat, node: Node, parent: Node) returns (acc: LocalExpansion)
      requires p >= 0 && 2 <= level <= height && Root().halfSide >= 0.0
      requires node.box == BoxAt(Root(), level, i) && node.local == ZeroExpansion(p, ToComplex(node.box.center))
      requires parent.box == BoxAt(Root(), level - 1, i / 4) && parent.local == FinalLocal(level - 1, i / 4)
      ensures fresh(acc) && acc.Valid()
      ensures acc.Value() == Expansion(p, ToComplex(node.box.center), DownSum(Root(), height, p, sources, clog, level, i, 0))
    {
      var shifted := ShiftedParent(level, i, node, parent);
      acc := new LocalExpansion.FromCoeffs(ToVector(node.local.center), node.local.coeffs);
      var status := acc.AddAssign(shifted);
      assert status == Completed;
    }

    /** A multipole M2L can convert about center: of order p, and about a
        different point unless p is 0. */
    ghost predicate Convertible(m: Expansion, center: Vector2) {
      p >= 0 && m.WellFormed() && m.p == p && (p == 0 || m.center != ToComplex(center))
    }

    /** The coefficients le.M2L(m) leaves in a local le of order p about center. */
    ghost function Conversion(m: Expansion, center: Vector2): (r: seq<Complex>)
      requires Convertible(m, center)
      ensures |r| == p + 1
    {
      M2LCoeffs(m.coeffs, Sub(m.center, ToComplex(center)), p, clog)
    }

    /** Each step of DownSum adds the conversion of the multipole the node's
        interaction list names. */
    lemma InteractionSteps(level: nat, i: nat)
      requires p >= 0 && 2 <= level <= height && i < Pow4(level) && LevelsSized(levels) && Root().halfSide >= 0.0
      requires MultipolesFinal(levels[level], level, 0, Pow4(level))
      ensures forall n :: 0 <= n < |FarAt(Root(), level, i)| ==>
        && FarAt(Root(), level, i)[n] < |levels[level]|
        && Convertible(levels[level][FarAt(Root(), level, i)[n]].multipole, BoxAt(Root(), level, i).center)
        && DownSum(Root(), height, p, sources, clog, level, i, n + 1)
           == AddCoeffs(DownSum(Root(), height, p, sources, clog, level, i, n),
                        Conversion(levels[level][FarAt(Root(), level, i)[n]].multipole, BoxAt(Root(), level, i).center))
    {
      var far := FarAt(Root(), level, i);
      ListsBound(Root(), level, i);
      forall n | 0 <= n < |far|
        ensures far[n] < |levels[level]|
        ensures Convertible(levels[level][far[n]].multipole, BoxAt(Root(), level, i).center)
        ensures DownSum(Root(), height, p, sources, clog, level, i, n + 1)
           == AddCoeffs(DownSum(Root(), height, p, sources, clog, level, i, n),
                        Conversion(levels[level][far[n]].multipole, BoxAt(Root(), level, i).center))
      {
        assert far[n] in far;
        FarCentersDiffer(Root(), level, i, far[n]);
      }
    }

    /** The interaction-list loop: the local gains, entry by entry, the M2L
        conversion of the entry's multipole into a fresh local about the node's centre. */
    method AddInteractions(acc: LocalExpansion, level: nat, center: Vector2, far: seq<nat>, ghost sums: seq<seq<Complex>>)
      requires p >= 0 && level <= height && |levels| == height + 1 && |sums| == |far| + 1
      requires forall n :: 0 <= n < |far| ==>
        && far[n] < |levels[level]| && Convertible(levels[level][far[n]].multipole, center) && |sums[n]| == p + 1
        && sums[n + 1] == AddCoeffs(sums[n], Conversion(levels[level][far[n]].multipole, center))
      requires acc.Valid() && acc.Value() == Expansion(p, ToComplex(center), sums[0])
      modifies acc
      ensures acc.Valid() && acc.Value() == Expansion(p, ToComplex(center), sums[|far|])
    {
      var n := 0;
      while n < |far|
        invariant n <= |far| && acc.Valid()
        invariant acc.Value() == Expansion(p, ToComplex(center), sums[n])
      {
        var interaction := levels[level][far[n]];
        var le := new LocalExpansion(p, center);
        var multipole := new MultipoleExpansion.FromCoeffs(ToVector(interaction.multipole.center), interaction.multipole.coeffs);
        le.M2L(multipole, clog);
        var status := acc.AddAssign(le);
        assert status == Completed;
        n := n + 1;
      }
    }

    /** The parent's local shifted to the node's centre (L2L by the offset from
        the node's centre to the parent's). */
    method ShiftedParent(level: nat, i: nat, node: Node, parent: Node) returns (shifted: LocalExpansion)
      requires p >= 0 && 2 <= level <= height
      requires node.box == BoxAt(Root(), level, i)
      requires parent.box == BoxAt(Root(), level - 1, i / 4) && parent.local == FinalLocal(level - 1, i / 4)
      ensures fresh(shifted) && shifted.Valid()
      ensures shifted.Value() == Expansion(p, ToComplex(node.box.center), TaylorShift(FinalLocal(level - 1, i / 4).coeffs,
        ToComplex(BoxAt(Root(), level - 1, i / 4).center.Minus(BoxAt(Root(), level, i).center))))
    {
      var shift := parent.box.center.Minus(node.box.center);
      var parentLocal := new LocalExpansion.FromCoeffs(ToVector(parent.local.center), parent.local.coeffs);
      shifted := parentLocal.L2L(ToComplex(shift));
    }

    // -------------------------------------------------------------------------
    // Evaluation

    /** The direct sums over the points of the listed leaves. */
    ghost function NearSum(near: seq<nat>, point: Vector2): real
      requires height >= 0
    {
      if |near| == 0 then 0.0
      else NearSum(near[..|near| - 1], point) + DirectSum(PointsIn(Root(), height, sources, near[|near| - 1]), point, potential)
    }

    /** The potential the tree gives at point: the local expansion of point's
        leaf, plus the direct sum over the points of that leaf's near
        neighbours, less any at point itself. */
    ghost function PotentialAt(point: Vector2): real
      requires p >= 0 && height >= 1
    {
      var j := LeafOf(point);
      LocalValue(FinalNode(height, j).local, point) + NearSum(NearAt(Root(), height, j), point)
    }

    /** evaluate(point). */
    method Evaluate(point: Vector2) returns (r: real)
      requires Valid()
      ensures r == PotentialAt(point)
    {
      assert levels[0][0] == FinalNode(0, 0);
      var leafIndex := GetLeafIndex(point);
      var leaf := levels[height][leafIndex];
      LeafLinks(leafIndex);
      var local := new LocalExpansion.FromCoeffs(ToVector(leaf.local.center), leaf.local.coeffs);
      r := local.Evaluate(point);
      r := AddNear(r, leaf.nearNeighbors, point);
    }

    /** The loop of evaluate over the near neighbours of the leaf. */
    method AddNear(r0: real, near: seq<nat>, point: Vector2) returns (r: real)
      requires Valid() && forall c :: c in near ==> c < Pow4(height)
      ensures r == r0 + NearSum(near, point)
    {
      r := r0;
      var a := 0;
      while a < |near|
        invariant a <= |near| && r == r0 + NearSum(near[..a], point)
      {
        assert near[a] in near;
        LeafContents(near[a]);
        var neighbor := levels[height][near[a]];
        r := AddDirect(r, neighbor.points, point);
        assert near[..a + 1][..a] == near[..a];
        a := a + 1;
      }
      assert near[..|near|] == near;
    }

    /** The inner loop of evaluate: the potential of every point of a near
        neighbour, less any at point itself, added to r0. */
    method AddDirect(r0: real, pts: seq<Point>, point: Vector2) returns (r: real)
      ensures r == r0 + DirectSum(pts, point, potential)
    {
      r := r0;
      var b := 0;
      while b < |pts|
        invariant b <= |pts| && r == r0 + DirectSum(pts[..b], point, potential)
      {
        var pt := pts[b];
        assert pts[..b + 1] == pts[..b] + [pt];
        DirectSumAppend(pts[..b], pt, point, potential);
        EqualsIff(pt.position, point);
        if !pt.position.Equals(point) {
          r := r + potential(pt, point);
        }
        b := b + 1;
      }
      assert pts[..|pts|] == pts;
    }

    /** evaluateSources(): the potential at every source, in input order. */
    method EvaluateSources() returns (potentials: seq<real>)
      requires Valid()
      ensures |potentials| == |sources|
      ensures forall i :: 0 <= i < |sources| ==> potentials[i] == PotentialAt(sources[i].position)
    {
      potentials := seq(|sources|, _ => 0.0);
      var i := 0;
      while i < |sources|
        invariant i <= |sources| && |potentials| == |sources|
        invariant forall k :: 0 <= k < i ==> potentials[k] == PotentialAt(sources[k].position)
      {
        var v := Evaluate(sources[i].position);
        potentials := potentials[i := v];
        i := i + 1;
      }
    }

    // -------------------------------------------------------------------------
    // Properties of a built tree

    /** Every link is consistent: child q of node j of level L is node 4j+q of
        level L+1, whose parent is j and whose box is quadrant q of j's box. */
    lemma ChildLinks(level: nat, j: nat, q: nat)
      requires Valid() && level < height && j < Pow4(level) && q < 4
      ensures levels[level][j].nodeType == Internal && |levels[level][j].children| == 4
      ensures levels[level][j].children[q] == 4 * j + q < Pow4(level + 1)
      ensures levels[level + 1][4 * j + q].parent == Some(j)
      ensures GetChildBox(levels[level][j].box, q) == Ok(levels[level + 1][4 * j + q].box)
    {
      assert levels[level][j] == FinalNode(level, j);
      assert levels[level + 1][4 * j + q] == FinalNode(level + 1, 4 * j + q);
      assert (4 * j + q) / 4 == j && (4 * j + q) % 4 == q;
      ChildBoxShape(BoxAt(Root(), level, j), q);
    }

    /** Every leaf is a Leaf without children; every node is its own near neighbour. */
    lemma NodeKinds(level: nat, j: nat)
      requires Valid() && level <= height && j < Pow4(level)
      ensures levels[level][j].IsLeaf() <==> level == height
      ensures level == height ==> levels[level][j].children == []
      ensures j in levels[level][j].nearNeighbors
    {
      assert levels[level][j] == FinalNode(level, j);
      BoundingBoxContainsAll(sources);
      SelfIsNear(Root(), level, j);
    }

    /** Below the root, a node's near neighbours and interaction list split the
        children of its parent's near neighbours: together they hold each of
        them once, the first only boxes adjacent to the node's, the second
        only boxes that are not. */
    lemma ListsPartition(level: nat, j: nat)
      requires Valid() && 1 <= level <= height && j < Pow4(level)
      ensures levels[level][j].parent == Some(j / 4) && j / 4 < Pow4(level - 1)
      ensures var node, parent := levels[level][j], levels[level - 1][j / 4];
        && multiset(node.nearNeighbors) + multiset(node.interactionList) == multiset(Candidates(parent.nearNeighbors))
        && |node.nearNeighbors| + |node.interactionList| == 4 * |parent.nearNeighbors|
      ensures forall c :: c in levels[level][j].nearNeighbors ==>
        c < Pow4(level) && Adjacent(levels[level][j].box, levels[level][c].box)
      ensures forall c :: c in levels[level][j].interactionList ==>
        c < Pow4(level) && !Adjacent(levels[level][j].box, levels[level][c].box)
    {
      assert levels[level][j] == FinalNode(level, j);
      assert levels[level - 1][j / 4] == FinalNode(level - 1, j / 4);
      NearFarPartition(Root(), level, j);
      ListsBound(Root(), level, j);
      forall c | c in levels[level][j].nearNeighbors || c in levels[level][j].interactionList
        ensures levels[level][c].box == BoxAt(Root(), level, c)
      {
        assert levels[level][c] == FinalNode(level, c);
      }
    }

    /** The four nodes of level 1 touch one another, so their interaction
        lists are empty. */
    lemma Level1HasNoInteractionList(j: nat)
      requires Valid() && j < 4
      ensures levels[1][j].interactionList == []
    {
      assert levels[1][j] == FinalNode(1, j);
      BoundingBoxContainsAll(sources);
      Level1HasNoInteractions(Root(), j);
    }

    /** Every source sits in the leaf getLeafIndex names for it, inside that
        leaf's box, as often as it occurs among the sources; a leaf holds
        nothing else. */
    lemma SourcesInTheirLeaves()
      requires Valid()
      ensures forall k :: 0 <= k < |sources| ==>
        && sources[k] in levels[height][LeafOf(sources[k].position)].points
        && levels[height][LeafOf(sources[k].position)].box.Contains(sources[k])
        && multiset(levels[height][LeafOf(sources[k].position)].points)[sources[k]] == multiset(sources)[sources[k]]
      ensures forall j, x :: 0 <= j < Pow4(height) && x in levels[height][j].points ==>
        x in sources && LeafOf(x.position) == j
    {
      BoundingBoxContainsAll(sources);
      forall k | 0 <= k < |sources|
        ensures sources[k] in levels[height][LeafOf(sources[k].position)].points
        ensures levels[height][LeafOf(sources[k].position)].box.Contains(sources[k])
        ensures multiset(levels[height][LeafOf(sources[k].position)].points)[sources[k]] == multiset(sources)[sources[k]]
      {
        var x := sources[k];
        var j := LeafOf(x.position);
        PointsInLeaf(Root(), height, sources, j);
        PathBoxContains(Root(), x, height);
        PathIndexIsNode(Root(), x.position, height);
        assert levels[height][j] == FinalNode(height, j);
      }
      forall j | 0 <= j < Pow4(height)
        ensures forall x :: x in levels[height][j].points ==> x in sources && LeafOf(x.position) == j
      {
        PointsInLeaf(Root(), height, sources, j);
        assert levels[height][j] == FinalNode(height, j);
      }
    }

    /** The number of points in leaves 0 .. n-1. */
    ghost function LeafTotal(n: nat): nat
      reads this
      requires LevelsSized(levels) && n <= Pow4(height)
    {
      if n == 0 then 0 else LeafTotal(n - 1) + |levels[height][n - 1].points|
    }

    lemma {:induction false} LeafTotalIsCount(n: nat)
      requires Valid() && n <= Pow4(height)
      ensures LeafTotal(n) == CountBelow(Root(), height, sources, n)
    {
      if n > 0 {
        LeafTotalIsCount(n - 1);
        LeafContents(n - 1);
      }
    }

    /** What a built leaf holds: its points, and the multipole built from them. */
    lemma LeafContents(j: nat)
      requires Valid() && j < Pow4(height)
      ensures levels[height][j].points == PointsIn(Root(), height, sources, j)
      ensures levels[height][j].box == BoxAt(Root(), height, j)
      ensures levels[height][j].multipole == Expansion(p, ToComplex(BoxAt(Root(), height, j).center),
        BuildCoeffs(ZeroCoeffs(p + 1), ToComplex(BoxAt(Root(), height, j).center), PointsIn(Root(), height, sources, j)))
    {
      assert levels[height][j] == FinalNode(height, j);
    }

    /** What evaluate reads of a leaf: its local expansion and its near
        neighbours, all of them leaves. */
    lemma LeafLinks(j: nat)
      requires Valid() && j < Pow4(height)
      ensures levels[height][j].local == FinalNode(height, j).local
      ensures levels[height][j].nearNeighbors == NearAt(Root(), height, j)
      ensures forall c :: c in levels[height][j].nearNeighbors ==> c < Pow4(height)
    {
      assert levels[height][j] == FinalNode(height, j);
      ListsBound(Root(), height, j);
    }

    /** The leaves hold as many points as there are sources. */
    lemma LeafPointCounts()
      requires Valid()
      ensures LeafTotal(Pow4(height)) == |sources|
    {
      LeafTotalIsCount(Pow4(height));
      PointCountsSum(Root(), height, sources);
    }

    /** A leaf's multipole is about its box centre, with the total strength of
        its points first and minus their k-th moments after it. */
    lemma LeafMultipoleMoments(j: nat)
      requires Valid() && j < Pow4(height)
      ensures levels[height][j].multipole.center == ToComplex(levels[height][j].box.center)
      ensures |levels[height][j].multipole.coeffs| == p + 1
      ensures levels[height][j].multipole.coeffs[0] == FromReal(TotalStrength(levels[height][j].points))
      ensures forall k :: 1 <= k <= p ==>
        levels[height][j].multipole.coeffs[k] == Neg(Moment(levels[height][j].points, levels[height][j].multipole.center, k))
    {
      LeafContents(j);
      BuildFromZero(p + 1, ToComplex(BoxAt(Root(), height, j).center), PointsIn(Root(), height, sources, j));
    }

    /** The upward and downward passes stop at level 2: the expansions of levels
        0 and 1 keep their initial zeros (a level-1 leaf still gets its multipole). */
    lemma UpperLevelsZero(level: nat, j: nat)
      requires Valid() && level < 2 && level <= height && j < Pow4(level)
      ensures levels[level][j].local == ZeroExpansion(p, ToComplex(levels[level][j].box.center))
      ensures level < height ==> levels[level][j].multipole == ZeroExpansion(p, ToComplex(levels[level][j].box.center))
    {
      assert levels[level][j] == FinalNode(level, j);
    }

    /** An internal node of level 2 or below holds the sum, from zero and in
        quadrant order, of its four children's M2M translations. */
    lemma ChildrenSumToMultipole(level: nat, j: nat)
      requires Valid() && 2 <= level < height && j < Pow4(level)
      ensures 4 * j + 3 < |levels[level + 1]|
      ensures var node, c := levels[level][j], levels[level + 1];
        && |node.multipole.coeffs| == p + 1
        && |c[4 * j].multipole.coeffs| == |c[4 * j + 1].multipole.coeffs| == p + 1
        && |c[4 * j + 2].multipole.coeffs| == |c[4 * j + 3].multipole.coeffs| == p + 1
        && node.multipole.coeffs ==
          AddCoeffs(AddCoeffs(AddCoeffs(AddCoeffs(ZeroCoeffs(p + 1),
            Translated(node, c[4 * j])), Translated(node, c[4 * j + 1])),
            Translated(node, c[4 * j + 2])), Translated(node, c[4 * j + 3]))
    {
      var node := levels[level][j];
      assert node == FinalNode(level, j);
      ChildTranslation(level, j, 0);
      ChildTranslation(level, j, 1);
      ChildTranslation(level, j, 2);
      ChildTranslation(level, j, 3);
      UpSumOfFour(Root(), height, p, sources, level, j);
    }

    /** What child q of node j adds to the node's multipole. */
    lemma ChildTranslation(level: nat, j: nat, q: nat)
      requires Valid() && level < height && j < Pow4(level) && q < 4
      ensures 4 * j + q < |levels[level + 1]|
      ensures levels[level + 1][4 * j + q].multipole == FinalMultipole(level + 1, 4 * j + q)
      ensures Translated(levels[level][j], levels[level + 1][4 * j + q])
        == M2MCoeffs(MultipoleCoeffs(Root(), height, p, sources, level + 1, 4 * j + q), ChildShift(Root(), level, j, q))
    {
      assert levels[level][j] == FinalNode(level, j);
      assert levels[level + 1][4 * j + q] == FinalNode(level + 1, 4 * j + q);
    }

    /** The sum of the local values, at point, of the M2L conversions about
        center of the multipoles that far names in row. */
    ghost function InteractionField(row: seq<Node>, center: Vector2, far: seq<nat>, point: Vector2): real
      requires forall n :: 0 <= n < |far| ==> far[n] < |row| && Convertible(row[far[n]].multipole, center)
    {
      if |far| == 0 then 0.0
      else
        var f := far[|far| - 1];
        InteractionField(row, center, far[..|far| - 1], point)
          + LocalValue(Expansion(p, ToComplex(center), Conversion(row[f].multipole, center)), point)
    }

    /** Below level 1 a node's local expansion gives, at every point, what its
        parent's local gives there plus the field of every multipole on its
        interaction list: L2L loses nothing and += adds values. */
    lemma LocalSplits(level: nat, j: nat, point: Vector2)
      requires Valid() && 2 <= level <= height && j < Pow4(level)
      ensures j / 4 < |levels[level - 1]|
      ensures levels[level][j].local.WellFormed() && levels[level - 1][j / 4].local.WellFormed()
      ensures var node := levels[level][j];
        forall n :: 0 <= n < |node.interactionList| ==>
          node.interactionList[n] < |levels[level]| && Convertible(levels[level][node.interactionList[n]].multipole, node.box.center)
      ensures var node := levels[level][j];
        LocalValue(node.local, point) == LocalValue(levels[level - 1][j / 4].local, point)
          + InteractionField(levels[level], node.box.center, node.interactionList, point)
    {
      var far := FarAt(Root(), level, j);
      assert levels[level][j] == FinalNode(level, j);
      assert levels[level - 1][j / 4] == FinalNode(level - 1, j / 4);
      InteractionsConvertible(level, j);
      DownSumValue(level, j, |far|, point);
      assert far[..|far|] == far;
    }

    /** The multipoles an interaction list names can be converted about the node's centre. */
    lemma InteractionsConvertible(level: nat, j: nat)
      requires Valid() && 2 <= level <= height && j < Pow4(level)
      ensures forall n :: 0 <= n < |FarAt(Root(), level, j)| ==>
        && FarAt(Root(), level, j)[n] < |levels[level]|
        && Convertible(levels[level][FarAt(Root(), level, j)[n]].multipole, BoxAt(Root(), level, j).center)
        && Conversion(levels[level][FarAt(Root(), level, j)[n]].multipole, BoxAt(Root(), level, j).center)
           == M2LFrom(Root(), height, p, sources, clog, level, j, FarAt(Root(), level, j)[n])
    {
      var far := FarAt(Root(), level, j);
      BoundingBoxContainsAll(sources);
      ListsBound(Root(), level, j);
      forall n | 0 <= n < |far|
        ensures far[n] < |levels[level]|
        ensures Convertible(levels[level][far[n]].multipole, BoxAt(Root(), level, j).center)
        ensures Conversion(levels[level][far[n]].multipole, BoxAt(Root(), level, j).center)
           == M2LFrom(Root(), height, p, sources, clog, level, j, far[n])
      {
        assert far[n] in far;
        assert levels[level][far[n]] == FinalNode(level, far[n]);
        FarCentersDiffer(Root(), level, j, far[n]);
      }
    }

    /** The value of node j's local after the L2L term and n interaction terms. */
    lemma {:induction false} DownSumValue(level: nat, j: nat, n: nat, point: Vector2)
      requires Valid() && 2 <= level <= height && j < Pow4(level) && n <= |FarAt(Root(), level, j)|
      requires forall k :: 0 <= k < |FarAt(Root(), level, j)| ==>
        && FarAt(Root(), level, j)[k] < |levels[level]|
        && Convertible(levels[level][FarAt(Root(), level, j)[k]].multipole, BoxAt(Root(), level, j).center)
        && Conversion(levels[level][FarAt(Root(), level, j)[k]].multipole, BoxAt(Root(), level, j).center)
           == M2LFrom(Root(), height, p, sources, clog, level, j, FarAt(Root(), level, j)[k])
      ensures Root().halfSide >= 0.0
      ensures LocalValue(Expansion(p, ToComplex(BoxAt(Root(), level, j).center), DownSum(Root(), height, p, sources, clog, level, j, n)), point)
        == LocalValue(FinalLocal(level - 1, j / 4), point)
           + InteractionField(levels[level], BoxAt(Root(), level, j).center, FarAt(Root(), level, j)[..n], point)
    {
      BoundingBoxContainsAll(sources);
      if n == 0 {
        ParentShiftValue(Root(), height, p, sources, clog, level, j, point);
      } else {
        DownSumValue(level, j, n - 1, point);
        DownSumStep(level, j, n, point);
      }
    }

    /** One interaction term adds the value of its conversion. */
    lemma DownSumStep(level: nat, j: nat, n: nat, point: Vector2)
      requires p >= 0 && 2 <= level <= height && Root().halfSide >= 0.0 && |levels| == height + 1
      requires 1 <= n <= |FarAt(Root(), level, j)|
      requires forall k :: 0 <= k < |FarAt(Root(), level, j)| ==>
        && FarAt(Root(), level, j)[k] < |levels[level]|
        && Convertible(levels[level][FarAt(Root(), level, j)[k]].multipole, BoxAt(Root(), level, j).center)
        && Conversion(levels[level][FarAt(Root(), level, j)[k]].multipole, BoxAt(Root(), level, j).center)
           == M2LFrom(Root(), height, p, sources, clog, level, j, FarAt(Root(), level, j)[k])
      ensures var c, far := ToComplex(BoxAt(Root(), level, j).center), FarAt(Root(), level, j);
        LocalValue(Expansion(p, c, DownSum(Root(), height, p, sources, clog, level, j, n)), point)
          - InteractionField(levels[level], BoxAt(Root(), level, j).center, far[..n], point)
        == LocalValue(Expansion(p, c, DownSum(Root(), height, p, sources, clog, level, j, n - 1)), point)
          - InteractionField(levels[level], BoxAt(Root(), level, j).center, far[..n - 1], point)
    {
      var far := FarAt(Root(), level, j);
      var center := BoxAt(Root(), level, j).center;
      var c := ToComplex(center);
      var f := far[n - 1];
      var before := Expansion(p, c, DownSum(Root(), height, p, sources, clog, level, j, n - 1));
      var term := Expansion(p, c, Conversion(levels[level][f].multipole, center));
      FieldOneMore(levels[level], center, far, n, point);
      LocalValueAdd(before, term, point);
    }

    /** InteractionField over a prefix of n entries of far, from the prefix of n - 1. */
    lemma FieldOneMore(row: seq<Node>, center: Vector2, far: seq<nat>, n: nat, point: Vector2)
      requires 1 <= n <= |far|
      requires forall k :: 0 <= k < |far| ==> far[k] < |row| && Convertible(row[far[k]].multipole, center)
      ensures InteractionField(row, center, far[..n], point)
           == InteractionField(row, center, far[..n - 1], point)
            + LocalValue(Expansion(p, ToComplex(center), Conversion(row[far[n - 1]].multipole, center)), point)
    {
      assert far[..n][..n - 1] == far[..n - 1];
      assert far[..n][n - 1] == far[n - 1];
    }
  }
}
