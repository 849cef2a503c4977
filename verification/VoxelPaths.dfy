/**
 Reachability between voxels, for the three neighbour relations the effector boundaries need.
 */
module VoxelPaths {
  import opened VoxelGrid

  datatype Graph =
    | BorderGraph(g: Grid)                         // 26-neighbour steps onto border voxels
    | FaceGraph(g: Grid)                           // 6-neighbour steps onto interior voxels
    | FlatGraph(g: Grid, marked: set<Voxel>)       // index steps of the inner fill onto unmarked voxels

  /** The index differences of the inner fill. */
  predicate FlatNeighbour(g: Grid, u: Voxel, v: Voxel) {
    Index(g, v) - Index(g, u) in {-1, 1, -g.width, g.width, -(g.width * g.depth), g.width * g.depth}
  }

  /** The inner fill expands only these voxels. */
  predicate Expands(g: Grid, u: Voxel) {
    0 < u.x < g.width && 0 < u.y < g.depth && 0 < u.z < g.height
  }

  ghost predicate Step(G: Graph, u: Voxel, v: Voxel) {
    match G
    case BorderGraph(g) => InBox(g, v) && Near(u, v) && Border(g, v)
    case FaceGraph(g) => Interior(g, v) && FaceNeighbour(u, v)
    case FlatGraph(g, marked) => Expands(g, u) && InBox(g, v) && FlatNeighbour(g, u, v) && v !in marked
  }

  ghost predicate IsPath(G: Graph, p: seq<Voxel>) {
    |p| > 0 && forall i | 0 <= i < |p| - 1 :: Step(G, p[i], p[i + 1])
  }

  ghost predicate Joins(G: Graph, p: seq<Voxel>, a: Voxel, b: Voxel) {
    IsPath(G, p) && p[0] == a && p[|p| - 1] == b
  }

  /** b can be reached from a in any number of steps. */
  ghost predicate Reach(G: Graph, a: Voxel, b: Voxel) {
    exists p :: Joins(G, p, a, b)
  }

  /** b can be reached from a in at least one step. */
  ghost predicate ReachPlus(G: Graph, a: Voxel, b: Voxel) {
    exists p :: |p| > 1 && Joins(G, p, a, b)
  }

  lemma ReachSelf(G: Graph, a: Voxel)
    ensures Reach(G, a, a)
  {
    assert Joins(G, [a], a, a);
  }

  lemma ReachStep(G: Graph, a: Voxel, u: Voxel, v: Voxel)
    requires Reach(G, a, u) && Step(G, u, v)
    ensures ReachPlus(G, a, v) && Reach(G, a, v)
  {
    var p :| Joins(G, p, a, u);
    WithOneMore(G, p, v);
    assert |p + [v]| > 1;
  }

  lemma PlusIsReach(G: Graph, a: Voxel, b: Voxel)
    requires ReachPlus(G, a, b)
    ensures Reach(G, a, b)
  {
    var p :| |p| > 1 && Joins(G, p, a, b);
  }

  lemma ReachIsSelfOrPlus(G: Graph, a: Voxel, b: Voxel)
    requires Reach(G, a, b)
    ensures a == b || ReachPlus(G, a, b)
  {
    var p :| Joins(G, p, a, b);
  }

  /** A set that holds every successor of a and of its own members holds everything reachable from a. */
  lemma {:induction false} ClosedHoldsPath(G: Graph, S: set<Voxel>, p: seq<Voxel>, a: Voxel, b: Voxel)
    requires forall u, v :: (u in S || u == a) && Step(G, u, v) ==> v in S
    requires Joins(G, p, a, b) && |p| > 1
    ensures b in S
    decreases |p|
  {
    var q := p[..|p| - 1];
    var u := q[|q| - 1];
    assert Step(G, p[|p| - 2], p[|p| - 1]);
    if |q| > 1 {
      assert forall i | 0 <= i < |q| - 1 :: Step(G, q[i], q[i + 1]);
      ClosedHoldsPath(G, S, q, a, u);
    }
  }

  lemma ClosedHoldsReach(G: Graph, S: set<Voxel>, a: Voxel)
    requires forall u, v :: (u in S || u == a) && Step(G, u, v) ==> v in S
    ensures forall b :: ReachPlus(G, a, b) ==> b in S
  {
    forall b | ReachPlus(G, a, b)
      ensures b in S
    {
      var p :| |p| > 1 && Joins(G, p, a, b);
      ClosedHoldsPath(G, S, p, a, b);
    }
  }

  /** The invariant of a graph search: what has been left off the stack has all its successors in S. */
  ghost predicate Explored(G: Graph, S: set<Voxel>, a: Voxel, stack: seq<Voxel>) {
    forall u, v :: (u in S || u == a) && u !in stack && Step(G, u, v) ==> v in S
  }

  /** Popping u, putting its successors into S and pushing the new ones keeps the invariant. */
  lemma ExploreOne(G: Graph, S: set<Voxel>, S': set<Voxel>, a: Voxel, u: Voxel, rest: seq<Voxel>, stack: seq<Voxel>)
    requires Explored(G, S, a, rest + [u])
    requires S <= S' && (forall v | Step(G, u, v) :: v in S')
    requires |rest| <= |stack| && stack[..|rest|] == rest
    requires forall v | v in S' && v !in S :: v in stack[|rest|..]
    ensures Explored(G, S', a, stack)
  {
    assert stack == rest + stack[|rest|..];
    forall w, v | (w in S' || w == a) && w !in stack && Step(G, w, v)
      ensures v in S'
    {
      assert w != u ==> w !in rest + [u];
    }
  }

  lemma ReachMore(G: Graph, S: set<Voxel>, S': set<Voxel>, a: Voxel, u: Voxel)
    requires forall v | v in S :: ReachPlus(G, a, v)
    requires u in S || u == a
    requires forall v | v in S' :: v in S || Step(G, u, v)
    ensures forall v | v in S' :: ReachPlus(G, a, v)
  {
    ReachSelf(G, a);
    if u in S {
      PlusIsReach(G, a, u);
    }
    forall v | v in S'
      ensures ReachPlus(G, a, v)
    {
      if v !in S {
        ReachStep(G, a, u, v);
      }
    }
  }

  /** When every step of one graph from a voxel reachable in it is a step of the other, so is every path. */
  lemma {:induction false} PathTransfer(G: Graph, H: Graph, p: seq<Voxel>, a: Voxel, b: Voxel)
    requires forall u, v :: Reach(H, a, u) && Step(G, u, v) ==> Step(H, u, v)
    requires Joins(G, p, a, b)
    ensures Joins(H, p, a, b)
    decreases |p|
  {
    if |p| > 1 {
      var q, u := p[..|p| - 1], p[|p| - 2];
      WithoutLast(G, p);
      PathTransfer(G, H, q, a, u);
      assert Joins(H, q, a, u);
      assert Step(H, u, b);
      WithOneMore(H, q, b);
      assert q + [b] == p;
    }
  }

  lemma WithoutLast(G: Graph, p: seq<Voxel>)
    requires IsPath(G, p) && |p| > 1
    ensures Joins(G, p[..|p| - 1], p[0], p[|p| - 2]) && Step(G, p[|p| - 2], p[|p| - 1])
  {
    var q := p[..|p| - 1];
    assert forall i | 0 <= i < |q| - 1 :: Step(G, q[i], q[i + 1]);
  }

  lemma WithOneMore(G: Graph, q: seq<Voxel>, v: Voxel)
    requires IsPath(G, q) && Step(G, q[|q| - 1], v)
    ensures Joins(G, q + [v], q[0], v)
  {
    var p := q + [v];
    forall i | 0 <= i < |p| - 1
      ensures Step(G, p[i], p[i + 1])
    {
      if i < |q| - 1 {
        assert p[i] == q[i] && p[i + 1] == q[i + 1];
      }
    }
  }
}
