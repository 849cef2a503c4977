/**
 EffectorBoundaries: the validity cache, the walk along the border of the valid region, and the fill
 of its inside.
 */
module EffectorBoundaries {
  import opened VoxelGrid
  import opened VoxelPaths
  import opened ScanLine

  datatype CacheEntry = Unknown | Valid | Invalid

  /** Every cell that is not UNKNOWN agrees with the kinematic predicate. */
  ghost predicate CacheOk(g: Grid, cache: seq<CacheEntry>) {
    && |cache| == Size(g)
    && forall v | InBox(g, v) && 0 <= Index(g, v) < |cache| ::
         cache[Index(g, v)] == Unknown || cache[Index(g, v)] == if g.valid(v) then Valid else Invalid
  }

  /** The bitmap shows exactly the voxels of a set. */
  ghost predicate Shows(g: Grid, bits: seq<bool>, marked: set<Voxel>) {
    && |bits| == Size(g)
    && (forall v | v in marked :: InBox(g, v))
    && forall v | InBox(g, v) && 0 <= Index(g, v) < |bits| :: bits[Index(g, v)] <==> v in marked
  }

  lemma CacheLearns(g: Grid, cache: seq<CacheEntry>, v: Voxel)
    requires CacheOk(g, cache) && InBox(g, v)
    ensures 0 <= Index(g, v) < |cache|
    ensures CacheOk(g, cache[Index(g, v) := if g.valid(v) then Valid else Invalid])
  {
    IndexInRange(g, v);
    forall u | InBox(g, u) && Index(g, u) == Index(g, v)
      ensures u == v
    {
      IndexInjective(g, u, v);
    }
  }

  lemma ShowsMore(g: Grid, bits: seq<bool>, marked: set<Voxel>, v: Voxel)
    requires Shows(g, bits, marked) && InBox(g, v)
    ensures 0 <= Index(g, v) < |bits|
    ensures bits[Index(g, v)] <==> v in marked
    ensures Shows(g, bits[Index(g, v) := true], marked + {v})
  {
    IndexInRange(g, v);
    forall u | InBox(g, u) && Index(g, u) == Index(g, v)
      ensures u == v
    {
      IndexInjective(g, u, v);
    }
  }

  /** (v.y, v.x, v.z) comes before (y, x, z) in the order of the nested loops. */
  predicate Before(v: Voxel, y: int, x: int, z: int) {
    v.y < y || (v.y == y && (v.x < x || (v.x == x && v.z < z)))
  }

  class EffectorBoundaries {
    const g: Grid
    const voxelSize: real
    const boundariesBitmap: array<bool>

    /** The box is a little larger than one voxel and its centre lies in it. */
    ghost predicate Sound() {
      && 0.0 < voxelSize <= BOUNDARY_BOX_MAX_Z - BOUNDARY_BOX_MIN_Z
      && g == MakeGrid(voxelSize, g.valid)
      && InBox(g, Centre(voxelSize))
    }

    constructor (voxelSize: real, valid: Voxel -> bool)
      requires voxelSize > 0.0
      ensures this.voxelSize == voxelSize && g.valid == valid
      ensures Sound() <==> voxelSize <= BOUNDARY_BOX_MAX_Z - BOUNDARY_BOX_MIN_Z
      ensures Shows(g, boundariesBitmap[..], {})
      ensures fresh(boundariesBitmap)
    {
      var g' := MakeGrid(voxelSize, valid);
      if voxelSize <= BOUNDARY_BOX_MAX_Z - BOUNDARY_BOX_MIN_Z {
        CentreInBox(voxelSize, valid);
      }
      SizeIsNatural(voxelSize, valid);
      this.g := g';
      this.voxelSize := voxelSize;
      boundariesBitmap := new bool[Size(g')](_ => false);
    }

    /** isValid. Without a cache any coordinate may be asked for; with one it must lie in the box. */
    method IsValid(coordinate: Voxel, pointValidityCache: array?<CacheEntry>) returns (r: bool)
      requires pointValidityCache != null ==> InBox(g, coordinate) && CacheOk(g, pointValidityCache[..])
      modifies pointValidityCache
      ensures r == g.valid(coordinate)
      ensures pointValidityCache != null ==> CacheOk(g, pointValidityCache[..])
    {
      var fromCache := Unknown;
      if pointValidityCache != null {
        IndexInRange(g, coordinate);
        fromCache := pointValidityCache[Index(g, coordinate)];
        assert fromCache == pointValidityCache[..][Index(g, coordinate)];
      }
      if fromCache == Unknown {
        r := g.valid(coordinate);
        if pointValidityCache != null {
          CacheLearns(g, pointValidityCache[..], coordinate);
          pointValidityCache[Index(g, coordinate)] := if r then Valid else Invalid;
          assert pointValidityCache[..]
              == old(pointValidityCache[..])[Index(g, coordinate) := if r then Valid else Invalid];
        }
      } else {
        r := fromCache == Valid;
      }
    }

    /** hasInvalidNeighbours: whether a voxel of the box lies on the border. No query leaves the box. */
    method HasInvalidNeighbours(c: Voxel, cache: array<CacheEntry>) returns (r: bool)
      requires InBox(g, c) && CacheOk(g, cache[..])
      modifies cache
      ensures r == Border(g, c)
      ensures CacheOk(g, cache[..])
    {
      var valid := IsValid(c, cache);
      if !valid {
        return false;
      }
      if OnEdge(g, c) {
        return true;
      }
      var all := NeighboursAreValid(c, cache);
      return !all;
    }

    /** The loops over the 3x3x3 box around a voxel. */
    method NeighboursAreValid(c: Voxel, cache: array<CacheEntry>) returns (r: bool)
      requires InBox(g, c) && !OnEdge(g, c) && CacheOk(g, cache[..])
      modifies cache
      ensures r <==> forall v | Near(c, v) :: g.valid(v)
      ensures CacheOk(g, cache[..])
    {
      for y := c.y - 1 to c.y + 2
        invariant CacheOk(g, cache[..])
        invariant forall v | Near(c, v) && v.y < y :: g.valid(v)
      {
        for x := c.x - 1 to c.x + 2
          invariant CacheOk(g, cache[..])
          invariant forall v | Near(c, v) && (v.y < y || (v.y == y && v.x < x)) :: g.valid(v)
        {
          var ok, z := ColumnIsValid(c, x, y, cache);
          if !ok {
            assert Near(c, Voxel(x, y, z));
            return false;
          }
        }
      }
      return true;
    }

    /** The innermost of these loops, which stops at an invalid voxel. */
    method ColumnIsValid(c: Voxel, x: int, y: int, cache: array<CacheEntry>) returns (r: bool, ghost z': int)
      requires InBox(g, c) && !OnEdge(g, c) && CacheOk(g, cache[..])
      requires c.x - 1 <= x <= c.x + 1 && c.y - 1 <= y <= c.y + 1
      modifies cache
      ensures r ==> forall z | c.z - 1 <= z <= c.z + 1 :: g.valid(Voxel(x, y, z))
      ensures !r ==> c.z - 1 <= z' <= c.z + 1 && !g.valid(Voxel(x, y, z'))
      ensures CacheOk(g, cache[..])
    {
      for z := c.z - 1 to c.z + 2
        invariant CacheOk(g, cache[..])
        invariant forall k | c.z - 1 <= k < z :: g.valid(Voxel(x, y, k))
      {
        var ok := IsValid(Voxel(x, y, z), cache);
        if !ok {
          return false, z;
        }
      }
      return true, 0;
    }

    /** The neighbours of a popped voxel: those on the border and not yet marked are marked and pushed. */
    method VisitNeighbours(b: Voxel, cache: array<CacheEntry>, stack: seq<Voxel>, ghost marked: set<Voxel>)
      returns (stack': seq<Voxel>, ghost marked': set<Voxel>)
      requires InBox(g, b) && CacheOk(g, cache[..]) && Shows(g, boundariesBitmap[..], marked)
      requires cache as object != boundariesBitmap
      modifies cache, boundariesBitmap
      ensures CacheOk(g, cache[..]) && Shows(g, boundariesBitmap[..], marked')
      ensures forall v :: v in marked' <==> v in marked || Step(BorderGraph(g), b, v)
      ensures marked <= marked' && (stack' == stack || marked < marked')
      ensures |stack'| >= |stack| && stack'[..|stack|] == stack
      ensures forall v :: v in stack'[|stack|..] <==> v in marked' && v !in marked
    {
      stack', marked' := stack, marked;
      for y := b.y - 1 to b.y + 2
        invariant CacheOk(g, cache[..]) && Shows(g, boundariesBitmap[..], marked')
        invariant forall v :: v in marked' <==> v in marked || (Step(BorderGraph(g), b, v) && v.y < y)
        invariant |stack'| >= |stack| && stack'[..|stack|] == stack
        invariant forall v :: v in stack'[|stack|..] <==> v in marked' && v !in marked
      {
        for x := b.x - 1 to b.x + 2
          invariant CacheOk(g, cache[..]) && Shows(g, boundariesBitmap[..], marked')
          invariant forall v :: v in marked' <==>
            v in marked || (Step(BorderGraph(g), b, v) && (v.y < y || (v.y == y && v.x < x)))
          invariant |stack'| >= |stack| && stack'[..|stack|] == stack
          invariant forall v :: v in stack'[|stack|..] <==> v in marked' && v !in marked
        {
          for z := b.z - 1 to b.z + 2
            invariant CacheOk(g, cache[..]) && Shows(g, boundariesBitmap[..], marked')
            invariant forall v :: v in marked' <==> v in marked || (Step(BorderGraph(g), b, v) && Before(v, y, x, z))
            invariant |stack'| >= |stack| && stack'[..|stack|] == stack
            invariant forall v :: v in stack'[|stack|..] <==> v in marked' && v !in marked
          {
            var v := Voxel(x, y, z);
            if InBox(g, v) {
              ghost var before := marked';
              var mark;
              mark, marked' := MarkIfBorder(v, cache, marked');
              if mark {
                stack' := stack' + [v];
                assert stack'[|stack|..] == stack'[|stack|..|stack'| - 1] + [v];
              }
              assert v in marked' <==> v in before || Border(g, v);
            }
          }
        }
      }
      if stack' != stack {
        assert stack'[|stack|..][0] in marked' - marked;
      }
    }

    /** The test and the assignment for one neighbour in the box. */
    method MarkIfBorder(v: Voxel, cache: array<CacheEntry>, ghost marked: set<Voxel>)
      returns (mark: bool, ghost marked': set<Voxel>)
      requires InBox(g, v) && CacheOk(g, cache[..]) && Shows(g, boundariesBitmap[..], marked)
      requires cache as object != boundariesBitmap
      modifies cache, boundariesBitmap
      ensures CacheOk(g, cache[..]) && Shows(g, boundariesBitmap[..], marked')
      ensures mark == (v !in marked && Border(g, v)) && marked' == if mark then marked + {v} else marked
    {
      mark, marked' := false, marked;
      var index := Index(g, v);
      var valid := IsValid(v, cache);
      ShowsMore(g, boundariesBitmap[..], marked, v);
      if valid && !boundariesBitmap[index] {
        mark := HasInvalidNeighbours(v, cache);
        if mark {
          ghost var bits := boundariesBitmap[..];
          boundariesBitmap[index] := true;
          marked' := marked + {v};
          assert boundariesBitmap[..] == bits[index := true];
        }
      }
    }

    /** The first while loop: from a marked start voxel, the border is walked by its 26-neighbours. */
    method WalkBorder(start: Voxel, cache: array<CacheEntry>) returns (ghost marked: set<Voxel>)
      requires InBox(g, start) && CacheOk(g, cache[..]) && Shows(g, boundariesBitmap[..], {start})
      requires cache as object != boundariesBitmap
      modifies cache, boundariesBitmap
      ensures CacheOk(g, cache[..]) && Shows(g, boundariesBitmap[..], marked)
      ensures forall v :: v in marked <==> Reach(BorderGraph(g), start, v)
    {
      ghost var G := BorderGraph(g);
      var cstack := [start];
      marked := {start};
      ReachSelf(G, start);
      BoxHolds(g, marked);
      while cstack != []
        invariant CacheOk(g, cache[..]) && Shows(g, boundariesBitmap[..], marked)
        invariant start in marked && marked <= Box(g)
        invariant forall v | v in cstack :: v in marked
        invariant forall v | v in marked :: Reach(G, start, v)
        invariant Explored(G, marked, start, cstack)
        decreases Box(g) - marked, |cstack|
      {
        ghost var before, rest := marked, cstack[..|cstack| - 1];
        var borderVoxel := cstack[|cstack| - 1];
        assert cstack == rest + [borderVoxel];
        cstack := cstack[..|cstack| - 1];
        cstack, marked := VisitNeighbours(borderVoxel, cache, cstack, marked);
        assert cstack == rest + cstack[|rest|..];
        forall v | v in marked
          ensures Reach(G, start, v)
        {
          if v !in before {
            ReachStep(G, start, borderVoxel, v);
          }
        }
        BoxHolds(g, marked);
        ExploreOne(G, before, marked, start, borderVoxel, rest, cstack);
      }
      ClosedHoldsReach(G, marked, start);
      forall v | Reach(G, start, v)
        ensures v in marked
      {
        var p :| Joins(G, p, start, v);
        assert |p| > 1 ==> ReachPlus(G, start, v);
      }
    }

    /** The second while loop: from the centre, over index neighbours that are not yet marked. Every index
        it computes for an expanded voxel lies at or above zero, for every bitmap. */
    method FillInside(centre: Voxel, ghost marked: set<Voxel>) returns (ghost marked': set<Voxel>)
      requires InBox(g, centre) && Shows(g, boundariesBitmap[..], marked)
      modifies boundariesBitmap
      ensures Shows(g, boundariesBitmap[..], marked')
      ensures forall v :: v in marked' <==> v in marked || ReachPlus(FlatGraph(g, marked), centre, v)
    {
      ghost var G := FlatGraph(g, marked);
      var cstack := [centre];
      ghost var reached: set<Voxel> := {};
      marked' := marked;
      BoxHolds(g, marked);
      while cstack != []
        invariant Shows(g, boundariesBitmap[..], marked')
        invariant marked' == marked + reached && marked !! reached && marked' <= Box(g)
        invariant forall v | v in cstack :: v == centre || v in reached
        invariant forall v | v in reached :: ReachPlus(G, centre, v)
        invariant Explored(G, reached, centre, cstack)
        decreases Box(g) - marked', |cstack|
      {
        ghost var before, rest := reached, cstack[..|cstack| - 1];
        var validVoxel := cstack[|cstack| - 1];
        assert cstack == rest + [validVoxel];
        cstack := cstack[..|cstack| - 1];
        if Expands(g, validVoxel) {
          cstack, marked' := ExpandVoxel(validVoxel, cstack, marked');
          reached := marked' - marked;
          BoxHolds(g, marked');
        }
        assert cstack == rest + cstack[|rest|..];
        ReachMore(G, before, reached, centre, validVoxel);
        ExploreOne(G, before, reached, centre, validVoxel, rest, cstack);
      }
      ClosedHoldsReach(G, reached, centre);
    }

    /** The six index neighbours of a popped voxel. */
    method ExpandVoxel(u: Voxel, stack: seq<Voxel>, ghost marked: set<Voxel>)
      returns (stack': seq<Voxel>, ghost marked': set<Voxel>)
      requires InBox(g, u) && Expands(g, u) && Shows(g, boundariesBitmap[..], marked)
      modifies boundariesBitmap
      ensures Shows(g, boundariesBitmap[..], marked')
      ensures forall v :: v in marked' <==> v in marked || (InBox(g, v) && FlatNeighbour(g, u, v))
      ensures marked <= marked' && (stack' == stack || marked < marked')
      ensures |stack'| >= |stack| && stack'[..|stack|] == stack
      ensures forall v :: v in stack'[|stack|..] <==> v in marked' && v !in marked
    {
      var index := Index(g, u);
      var row, slab := g.width, g.width * g.depth;
      var indices := [index - 1, index + 1, index - row, index + row, index - slab, index + slab];
      SixAreNatural(g, u);
      stack', marked' := stack, marked;
      for i := 0 to 6
        invariant Shows(g, boundariesBitmap[..], marked')
        invariant forall v :: v in marked' <==> v in marked || (InBox(g, v) && Index(g, v) in indices[..i])
        invariant |stack'| >= |stack| && stack'[..|stack|] == stack
        invariant forall v :: v in stack'[|stack|..] <==> v in marked' && v !in marked
      {
        var j := indices[i];
        assert indices[..i + 1] == indices[..i] + [j];
        if j < Size(g) {
          IndexOfDecode(g, j);
          var v := Decode(g, j);
          ShowsMore(g, boundariesBitmap[..], marked', v);
          forall w | InBox(g, w) && Index(g, w) == j
            ensures w == v
          {
            IndexInjective(g, w, v);
          }
          if !boundariesBitmap[j] {
            ghost var bits := boundariesBitmap[..];
            boundariesBitmap[j] := true;
            stack' := stack' + [v];
            marked' := marked' + {v};
            assert boundariesBitmap[..] == bits[j := true];
            assert stack'[|stack|..] == stack'[|stack|..|stack'| - 1] + [v];
          }
        } else {
          forall w | InBox(g, w)
            ensures Index(g, w) != j
          {
            IndexInRange(g, w);
          }
        }
      }
      assert indices[..6] == indices;
      if stack' != stack {
        assert stack'[|stack|..][0] in marked' - marked;
      }
    }

    /** The scan to the right: it marks the last valid voxel of the row, which is a border voxel of the box. */
    method ScanRight(cache: array<CacheEntry>, ghost centre: Voxel) returns (start: Voxel)
      requires voxelSize > 0.0 && centre == Centre(voxelSize) && Regular(voxelSize, g, centre)
      requires g.valid(centre)
      requires CacheOk(g, cache[..]) && Shows(g, boundariesBitmap[..], {})
      requires cache as object != boundariesBitmap
      modifies cache, boundariesBitmap
      ensures CacheOk(g, cache[..]) && Shows(g, boundariesBitmap[..], {start})
      ensures StopsAt(g, centre, start) && Border(g, start)
    {
      var x, k := FirstStop(cache, centre);
      x := x - voxelSize;
      start := ScanCoordinate(voxelSize, x, k - 1, centre);
      MarkStart(start);
    }

    /** The loop of the scan: it stops behind a border voxel. */
    method FirstStop(cache: array<CacheEntry>, ghost centre: Voxel) returns (x: real, ghost k: int)
      requires voxelSize > 0.0 && centre == Centre(voxelSize) && Regular(voxelSize, g, centre)
      requires g.valid(centre) && CacheOk(g, cache[..])
      modifies cache
      ensures CacheOk(g, cache[..])
      ensures k > 0 && x == Along(voxelSize, k)
      ensures StopsAt(g, centre, Right(centre, k - 1)) && Border(g, Right(centre, k - 1))
    {
      x, k := 0.0, 0;
      var found := false;
      while x < BOUNDARY_BOX_MAX_X && !found
        invariant CacheOk(g, cache[..])
        invariant k >= 0 && x == Along(voxelSize, k)
        invariant k > 0 ==> Along(voxelSize, k - 1) < BOUNDARY_BOX_MAX_X
        invariant Passed(g, centre, k)
        invariant k == 0 ==> !found
        invariant found ==> x < BOUNDARY_BOX_MAX_X && !g.valid(Right(centre, k))
        decreases g.width - centre.x + 1 - k, !found
      {
        var v := ScanCoordinate(voxelSize, x, k, centre);
        var ok := IsValid(v, cache);
        if !ok {
          found := true;
          assert k == 0 ==> v == centre;
        } else {
          x := x + voxelSize;
          k := k + 1;
        }
      }
      StartIsBorder(g, centre, k, found);
      assert Right(Right(centre, k - 1), 1) == Right(centre, k);
    }

    method MarkStart(start: Voxel)
      requires InBox(g, start) && Shows(g, boundariesBitmap[..], {})
      modifies boundariesBitmap
      ensures Shows(g, boundariesBitmap[..], {start})
    {
      ShowsMore(g, boundariesBitmap[..], {}, start);
      ghost var bits := boundariesBitmap[..];
      boundariesBitmap[Index(g, start)] := true;
      assert boundariesBitmap[..] == bits[Index(g, start) := true];
      assert {} + {start} == {start};
    }

    /** generateBoundariesBitmap. The answer is false when the source throws EffectorBoundariesException. */
    method GenerateBoundariesBitmap()
      returns (ok: bool, ghost start: Voxel, ghost border: set<Voxel>, ghost marked: set<Voxel>)
      requires Sound() && (ScanFits(voxelSize) || Blocked(g, Centre(voxelSize))) && Shows(g, boundariesBitmap[..], {})
      modifies boundariesBitmap
      ensures ok <==> g.valid(Centre(voxelSize))
      ensures !ok ==> Shows(g, boundariesBitmap[..], {})
      ensures ok ==> StopsAt(g, Centre(voxelSize), start) && Border(g, start)
      ensures ok ==> forall v :: v in border <==> Reach(BorderGraph(g), start, v)
      ensures ok ==> forall v :: v in marked <==> v in border || ReachPlus(FlatGraph(g, border), Centre(voxelSize), v)
      ensures ok ==> Shows(g, boundariesBitmap[..], marked)
      ensures ok && Sealed(g, border, Centre(voxelSize)) && Interior(g, Centre(voxelSize)) ==>
                && (forall v | v in marked :: g.valid(v))
                && (forall v :: v in marked <==> v in border || ReachPlus(FaceGraph(g), Centre(voxelSize), v))
    {
      start, border, marked := Centre(voxelSize), {}, {};
      IndexInRange(g, Centre(voxelSize));
      var pointValidityCache := new CacheEntry[Size(g)](_ => Unknown);
      ok := IsValid(Centre(voxelSize), pointValidityCache);
      if !ok {
        return;
      }
      ScanIsRegular(voxelSize, g.valid);
      var startingVoxel := ScanRight(pointValidityCache, Centre(voxelSize));
      start := startingVoxel;
      border := WalkBorder(startingVoxel, pointValidityCache);
      marked := FillInside(Centre(voxelSize), border);
      forall v | v in border
        ensures InBox(g, v) && Border(g, v)
      {
        WalkIsValid(g, start, v);
      }
      if Interior(g, Centre(voxelSize)) {
        FillIsInterior(g, border, Centre(voxelSize));
      }
    }
  }

  /** The last voxel of the scan that is valid: the next one is invalid, or it is on the edge of the box. */
  lemma StartIsBorder(g: Grid, centre: Voxel, k: int, found: bool)
    requires k > 0 && g.valid(Right(centre, k - 1))
    requires if found then !g.valid(Right(centre, k)) else centre.x + (k - 1) == g.width - 1
    ensures Border(g, Right(centre, k - 1))
  {
    assert found ==> Near(Right(centre, k - 1), Right(centre, k));
  }

  /** Voxels larger than the box leave a box without voxels. */
  lemma SizeIsNatural(voxelSize: real, valid: Voxel -> bool)
    requires voxelSize > 0.0
    ensures Size(MakeGrid(voxelSize, valid)) >= 0
  {
    var g := MakeGrid(voxelSize, valid);
    MulMono(0, g.depth, g.width);
    MulMono(0, g.height, g.width * g.depth);
    assert g.depth * g.width == g.width * g.depth && g.height * (g.width * g.depth) == g.width * g.depth * g.height;
  }

  /** All voxels of the box. */
  function Box(g: Grid): set<Voxel> {
    set x, y, z | 0 <= x < g.width && 0 <= y < g.depth && 0 <= z < g.height :: Voxel(x, y, z)
  }

  lemma BoxHolds(g: Grid, s: set<Voxel>)
    requires forall v | v in s :: InBox(g, v)
    ensures s <= Box(g)
  {
    forall v | v in s
      ensures v in Box(g)
    {
      assert v == Voxel(v.x, v.y, v.z);
    }
  }

  /** No index neighbour of an expanded voxel is negative. */
  lemma SixAreNatural(g: Grid, u: Voxel)
    requires InBox(g, u) && Expands(g, u)
    ensures Index(g, u) - 1 >= 0 && Index(g, u) - g.width >= 0 && Index(g, u) - g.width * g.depth >= 0
    ensures g.width >= 0 && g.width * g.depth >= 0
  {
    MulMono(1, u.y, g.width);
    MulMono(0, g.depth, g.width);
    MulMono(1, u.z, g.width * g.depth);
    Factor(u.z, g.width, g.depth, u.y);
    assert 1 * g.width == g.width && 1 * (g.width * g.depth) == g.width * g.depth;
    assert g.depth * g.width == g.width * g.depth;
  }

  // ------------------------------------------------------------ the fill and the interior

  /** Away from the edge of the box, index neighbours are the voxels behind the six faces: no row wraps. */
  lemma FlatIsFace(g: Grid, u: Voxel, v: Voxel)
    requires InBox(g, u) && !OnEdge(g, u) && InBox(g, v)
    ensures Expands(g, u)
    ensures FlatNeighbour(g, u, v) <==> FaceNeighbour(u, v)
  {
    FaceIndices(g, u);
    if FlatNeighbour(g, u, v) {
      var d := Index(g, v) - Index(g, u);
      var n := if d == -1 then Voxel(u.x - 1, u.y, u.z)
               else if d == 1 then Voxel(u.x + 1, u.y, u.z)
               else if d == -g.width then Voxel(u.x, u.y - 1, u.z)
               else if d == g.width then Voxel(u.x, u.y + 1, u.z)
               else if d == -(g.width * g.depth) then Voxel(u.x, u.y, u.z - 1)
               else Voxel(u.x, u.y, u.z + 1);
      assert Index(g, n) == Index(g, v);
      IndexInjective(g, n, v);
    }
  }

  lemma FaceIndices(g: Grid, u: Voxel)
    ensures Index(g, Voxel(u.x - 1, u.y, u.z)) == Index(g, u) - 1
    ensures Index(g, Voxel(u.x + 1, u.y, u.z)) == Index(g, u) + 1
    ensures Index(g, Voxel(u.x, u.y - 1, u.z)) == Index(g, u) - g.width
    ensures Index(g, Voxel(u.x, u.y + 1, u.z)) == Index(g, u) + g.width
    ensures Index(g, Voxel(u.x, u.y, u.z - 1)) == Index(g, u) - g.width * g.depth
    ensures Index(g, Voxel(u.x, u.y, u.z + 1)) == Index(g, u) + g.width * g.depth
  {
    Factor(u.z, g.width, g.depth, 0);
    Factor(u.z - 1, g.width, g.depth, 0);
    Factor(u.z + 1, g.width, g.depth, 0);
    var slab := g.width * g.depth;
    assert (u.z - 1) * slab == u.z * slab - slab && (u.z + 1) * slab == u.z * slab + slab;
    assert (u.y - 1) * g.width == u.y * g.width - g.width && (u.y + 1) * g.width == u.y * g.width + g.width;
  }

  ghost predicate OnlyBorder(g: Grid, marked: set<Voxel>) {
    forall v | v in marked :: InBox(g, v) && Border(g, v)
  }

  /** The border voxels behind the faces of the interior voxels joined to the centre are marked. */
  ghost predicate Sealed(g: Grid, marked: set<Voxel>, centre: Voxel) {
    forall u, v | Reach(FaceGraph(g), centre, u) && FaceNeighbour(u, v) && InBox(g, v) && Border(g, v) :: v in marked
  }

  /** From an interior voxel whose border neighbours are marked, the fill takes exactly the 6-neighbour steps
      inside the interior. */
  lemma FlatStepIsFaceStep(g: Grid, marked: set<Voxel>, u: Voxel, v: Voxel)
    requires OnlyBorder(g, marked) && Interior(g, u)
    requires FaceNeighbour(u, v) && InBox(g, v) && Border(g, v) ==> v in marked
    ensures Step(FlatGraph(g, marked), u, v) <==> Step(FaceGraph(g), u, v)
  {
    if FaceNeighbour(u, v) {
      assert Near(u, v);
    }
    if InBox(g, v) {
      FlatIsFace(g, u, v);
    }
  }

  lemma ReachedIsInterior(g: Grid, a: Voxel, b: Voxel)
    requires Interior(g, a) && Reach(FaceGraph(g), a, b)
    ensures Interior(g, b)
  {
    var p :| Joins(FaceGraph(g), p, a, b);
    if |p| > 1 {
      assert Step(FaceGraph(g), p[|p| - 2], p[|p| - 1]);
    }
  }

  lemma TransferPlus(G: Graph, H: Graph, a: Voxel, b: Voxel)
    requires forall u, v :: Reach(H, a, u) && Step(G, u, v) ==> Step(H, u, v)
    requires ReachPlus(G, a, b)
    ensures ReachPlus(H, a, b)
  {
    var p :| |p| > 1 && Joins(G, p, a, b);
    PathTransfer(G, H, p, a, b);
  }

  lemma TransferReach(G: Graph, H: Graph, a: Voxel, b: Voxel)
    requires forall u, v :: Reach(H, a, u) && Step(G, u, v) ==> Step(H, u, v)
    requires Reach(G, a, b)
    ensures Reach(H, a, b)
  {
    var p :| Joins(G, p, a, b);
    PathTransfer(G, H, p, a, b);
  }

  /** The inner fill stays inside the valid region. For an interior centre, the extra marks are exactly the interior
      voxels that a non-empty 6-neighbour path of interior voxels joins to the centre if and only if the
      border around those voxels is marked; then every mark is a valid voxel. */
  lemma FillIsInterior(g: Grid, marked: set<Voxel>, centre: Voxel)
    requires OnlyBorder(g, marked) && Interior(g, centre)
    ensures Sealed(g, marked, centre)
      <==> forall v :: ReachPlus(FlatGraph(g, marked), centre, v) <==> ReachPlus(FaceGraph(g), centre, v)
    ensures Sealed(g, marked, centre) ==>
              forall v :: v in marked || ReachPlus(FlatGraph(g, marked), centre, v) ==> InBox(g, v) && g.valid(v)
  {
    var F, I := FlatGraph(g, marked), FaceGraph(g);
    if Sealed(g, marked, centre) {
      SealedFill(g, marked, centre);
      forall v | ReachPlus(F, centre, v)
        ensures InBox(g, v) && g.valid(v)
      {
        PlusIsReach(I, centre, v);
        ReachedIsInterior(g, centre, v);
      }
    } else {
      var u, v :| Reach(I, centre, u) && FaceNeighbour(u, v) && InBox(g, v) && Border(g, v) && v !in marked;
      ReachedIsInterior(g, centre, u);
      FlatIsFace(g, u, v);
      if forall w :: ReachPlus(F, centre, w) <==> ReachPlus(I, centre, w) {
        ReachIsSelfOrPlus(I, centre, u);
        ReachSelf(F, centre);
        if u != centre {
          PlusIsReach(F, centre, u);
        }
        ReachStep(F, centre, u, v);
        PlusIsReach(I, centre, v);
        ReachedIsInterior(g, centre, v);
        assert false;
      }
    }
  }

  lemma SealedFill(g: Grid, marked: set<Voxel>, centre: Voxel)
    requires OnlyBorder(g, marked) && Interior(g, centre) && Sealed(g, marked, centre)
    ensures forall v :: ReachPlus(FlatGraph(g, marked), centre, v) <==> ReachPlus(FaceGraph(g), centre, v)
  {
    var F, I := FlatGraph(g, marked), FaceGraph(g);
    forall u, v | Reach(I, centre, u)
      ensures Step(F, u, v) <==> Step(I, u, v)
    {
      ReachedIsInterior(g, centre, u);
      FlatStepIsFaceStep(g, marked, u, v);
    }
    forall u, v | Reach(F, centre, u) && Step(I, u, v)
      ensures Step(F, u, v)
    {
      TransferReach(F, I, centre, u);
    }
    forall v
      ensures ReachPlus(F, centre, v) <==> ReachPlus(I, centre, v)
    {
      if ReachPlus(F, centre, v) {
        TransferPlus(F, I, centre, v);
      }
      if ReachPlus(I, centre, v) {
        TransferPlus(I, F, centre, v);
      }
    }
  }

  /** Any centre of the box: the voxels that the fill steps to first are sealed. */
  ghost predicate SealedAround(g: Grid, marked: set<Voxel>, centre: Voxel) {
    Expands(g, centre) ==>
      forall w | InBox(g, w) && FlatNeighbour(g, centre, w) ::
        (Border(g, w) ==> w in marked) && (Interior(g, w) ==> Sealed(g, marked, w))
  }

  /** When the border around the fill is marked, the fill stays valid if and only if no index neighbour of
      the centre is invalid, unless the centre is not expanded at all. Being valid, which is what the source
      asks of the centre, is neither needed nor enough. */
  lemma FillIsValidIff(g: Grid, marked: set<Voxel>, centre: Voxel)
    requires OnlyBorder(g, marked) && InBox(g, centre) && SealedAround(g, marked, centre)
    ensures (forall v :: v in marked || ReachPlus(FlatGraph(g, marked), centre, v) ==> g.valid(v))
      <==> (Expands(g, centre) ==> forall v :: InBox(g, v) && FlatNeighbour(g, centre, v) ==> g.valid(v))
  {
    var F := FlatGraph(g, marked);
    if Expands(g, centre) && exists v :: InBox(g, v) && FlatNeighbour(g, centre, v) && !g.valid(v) {
      var v :| InBox(g, v) && FlatNeighbour(g, centre, v) && !g.valid(v);
      ReachSelf(F, centre);
      ReachStep(F, centre, centre, v);
    } else {
      var S := set v | v in Box(g) && FirstComponent(g, centre, v);
      forall u, v | (u in S || u == centre) && Step(F, u, v)
        ensures v in S
      {
        BoxHolds(g, {v});
        if u in S {
          StaysInComponent(g, marked, centre, u, v);
        } else {
          ReachSelf(FaceGraph(g), v);
          assert Interior(g, v);
        }
      }
      ClosedHoldsReach(F, S, centre);
      forall v | v in S
        ensures g.valid(v)
      {
        var w :| FlatNeighbour(g, centre, w) && Interior(g, w) && Reach(FaceGraph(g), w, v);
        ReachedIsInterior(g, w, v);
      }
    }
  }

  /** v is joined to an interior index neighbour of an expanded centre. */
  ghost predicate FirstComponent(g: Grid, centre: Voxel, v: Voxel) {
    Expands(g, centre) && exists w :: FlatNeighbour(g, centre, w) && Interior(g, w) && Reach(FaceGraph(g), w, v)
  }

  lemma StaysInComponent(g: Grid, marked: set<Voxel>, centre: Voxel, u: Voxel, v: Voxel)
    requires OnlyBorder(g, marked) && SealedAround(g, marked, centre)
    requires FirstComponent(g, centre, u) && Step(FlatGraph(g, marked), u, v)
    ensures FirstComponent(g, centre, v)
  {
    var w :| FlatNeighbour(g, centre, w) && Interior(g, w) && Reach(FaceGraph(g), w, u);
    ReachedIsInterior(g, w, u);
    FlatStepIsFaceStep(g, marked, u, v);
    ReachStep(FaceGraph(g), w, u, v);
  }

  /** When the walk reaches every border voxel of the box, the fill is sealed. */
  lemma AllBorderSeals(g: Grid, marked: set<Voxel>, centre: Voxel)
    requires forall v :: v in marked <==> InBox(g, v) && Border(g, v)
    ensures OnlyBorder(g, marked) && Sealed(g, marked, centre) && SealedAround(g, marked, centre)
  {
  }

  /** The walk marks border voxels only, so the fill is the one place where an invalid voxel can be marked. */
  lemma WalkIsValid(g: Grid, start: Voxel, v: Voxel)
    requires InBox(g, start) && Border(g, start) && Reach(BorderGraph(g), start, v)
    ensures InBox(g, v) && Border(g, v) && g.valid(v)
  {
    var p :| Joins(BorderGraph(g), p, start, v);
    if |p| > 1 {
      assert Step(BorderGraph(g), p[|p| - 2], p[|p| - 1]);
    }
  }

  /** A centre with an invalid voxel behind one of its faces makes the fill mark that voxel, in every box and
      whatever the walk has marked. */
  lemma BorderCentreLeaks(g: Grid, marked: set<Voxel>, centre: Voxel, v: Voxel)
    requires forall u | u in marked :: g.valid(u)
    requires InBox(g, centre) && !OnEdge(g, centre) && FaceNeighbour(centre, v) && !g.valid(v)
    ensures InBox(g, v) && ReachPlus(FlatGraph(g, marked), centre, v)
  {
    FlatIsFace(g, centre, v);
    ReachSelf(FlatGraph(g, marked), centre);
    ReachStep(FlatGraph(g, marked), centre, centre, v);
  }

  /** Every voxel is reachable except one, which lies at least three voxels from every edge of the box. */
  ghost predicate Cavity(g: Grid, hole: Voxel) {
    && (forall v :: g.valid(v) <==> v != hole)
    && 3 <= hole.x < g.width - 3 && 3 <= hole.y < g.depth - 3 && 3 <= hole.z < g.height - 3
  }

  /** An interior centre is not enough either. The walk along the outside of the box does not see the border
      around a cavity, so a fill that starts two voxels from it goes through that border and marks the
      invalid voxel. */
  lemma CavityLeaks(g: Grid, hole: Voxel, start: Voxel, marked: set<Voxel>, centre: Voxel)
    requires Cavity(g, hole) && InBox(g, start) && OnEdge(g, start)
    requires forall v :: v in marked <==> Reach(BorderGraph(g), start, v)
    requires centre == hole.(z := hole.z - 2)
    ensures Interior(g, centre) && !g.valid(hole) && ReachPlus(FlatGraph(g, marked), centre, hole)
    ensures OnlyBorder(g, marked) && !Sealed(g, marked, centre)
  {
    forall v | v in marked
      ensures InBox(g, v) && Border(g, v) && OnEdge(g, v)
    {
      WalkStaysOutside(g, hole, start, v);
      WalkIsValid(g, start, v);
    }
    var F, shell := FlatGraph(g, marked), hole.(z := hole.z - 1);
    assert Near(shell, hole) && Border(g, shell);
    FlatIsFace(g, centre, shell);
    FlatIsFace(g, shell, hole);
    ReachSelf(F, centre);
    ReachStep(F, centre, centre, shell);
    ReachStep(F, centre, shell, hole);
    ReachSelf(FaceGraph(g), centre);
    assert FaceNeighbour(centre, shell) && shell !in marked;
  }

  lemma WalkStaysOutside(g: Grid, hole: Voxel, start: Voxel, v: Voxel)
    requires Cavity(g, hole) && InBox(g, start) && OnEdge(g, start) && Reach(BorderGraph(g), start, v)
    ensures OnEdge(g, v)
  {
    var p :| Joins(BorderGraph(g), p, start, v);
    OutsidePath(g, hole, p);
  }

  lemma {:induction false} OutsidePath(g: Grid, hole: Voxel, p: seq<Voxel>)
    requires Cavity(g, hole) && IsPath(BorderGraph(g), p) && OnEdge(g, p[0])
    ensures OnEdge(g, p[|p| - 1])
    decreases |p|
  {
    if |p| > 1 {
      WithoutLast(BorderGraph(g), p);
      OutsidePath(g, hole, p[..|p| - 1]);
    }
  }
}
