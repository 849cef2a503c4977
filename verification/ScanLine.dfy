/**
 The box in millimetres and the scan that looks for the first border voxel, with exact real arithmetic.
 */
module ScanLine {
  import opened VoxelGrid

  const BOUNDARY_BOX_MAX_X := 500.0
  const BOUNDARY_BOX_MAX_Y := 500.0
  const BOUNDARY_BOX_MIN_X := -500.0
  const BOUNDARY_BOX_MIN_Y := -500.0
  const BOUNDARY_BOX_MIN_Z := -250.0
  const BOUNDARY_BOX_MAX_Z := -180.0

  function MakeGrid(voxelSize: real, valid: Voxel -> bool): Grid
    requires voxelSize > 0.0
  {
    Grid(((BOUNDARY_BOX_MAX_X - BOUNDARY_BOX_MIN_X) / voxelSize).Floor,
         ((BOUNDARY_BOX_MAX_Y - BOUNDARY_BOX_MIN_Y) / voxelSize).Floor,
         ((BOUNDARY_BOX_MAX_Z - BOUNDARY_BOX_MIN_Z) / voxelSize).Floor,
         valid)
  }

  /** fromRealCoordinate, for points that are not below the minimum of the box (the cast to int truncates). */
  function FromRealCoordinate(voxelSize: real, x: real, y: real, z: real): Voxel
    requires voxelSize > 0.0
    requires x >= BOUNDARY_BOX_MIN_X && y >= BOUNDARY_BOX_MIN_Y && z >= BOUNDARY_BOX_MIN_Z
  {
    Voxel(((x - BOUNDARY_BOX_MIN_X) / voxelSize).Floor,
          ((y - BOUNDARY_BOX_MIN_Y) / voxelSize).Floor,
          ((z - BOUNDARY_BOX_MIN_Z) / voxelSize).Floor)
  }

  const CENTRE_Z := BOUNDARY_BOX_MIN_Z + (BOUNDARY_BOX_MAX_Z - BOUNDARY_BOX_MIN_Z) / 2.0

  function Centre(voxelSize: real): Voxel
    requires voxelSize > 0.0
  {
    FromRealCoordinate(voxelSize, 0.0, 0.0, CENTRE_Z)
  }

  function Right(v: Voxel, k: int): Voxel {
    v.(x := v.x + k)
  }

  /** The voxel k steps to the right of the centre. */
  function RightOf(voxelSize: real, k: nat): Voxel
    requires voxelSize > 0.0
  {
    Right(Centre(voxelSize), k)
  }

  /** point.x after k steps of the scan. */
  function Along(voxelSize: real, k: nat): real {
    if k == 0 then 0.0 else Along(voxelSize, k - 1) + voxelSize
  }

  lemma {:induction false} AlongIsProduct(voxelSize: real, k: nat)
    ensures Along(voxelSize, k) == k as real * voxelSize
  {
    if k > 0 {
      AlongIsProduct(voxelSize, k - 1);
      assert k as real * voxelSize == (k - 1) as real * voxelSize + voxelSize;
    }
  }

  /** Half the width of the box, in voxels. */
  function Half(voxelSize: real): real
    requires voxelSize > 0.0
  {
    BOUNDARY_BOX_MAX_X / voxelSize
  }

  lemma Divided(a: real, b: real, m: real)
    requires m > 0.0 && a == b * m
    ensures a / m == b
  {
  }

  lemma Ordered(a: real, b: real, m: real)
    requires m > 0.0
    ensures a < b <==> a * m < b * m
  {
    if a < b {
      assert (b - a) * m > 0.0;
    } else {
      assert (a - b) * m >= 0.0;
    }
  }

  lemma Compare(a: real, b: real, m: real, am: real, bm: real)
    requires m > 0.0 && am == a * m && bm == b * m
    ensures am < bm <==> a < b
  {
    Ordered(a, b, m);
  }

  lemma StepsOfLength(voxelSize: real, k: nat, x: real)
    requires voxelSize > 0.0 && x == k as real * voxelSize
    ensures x >= 0.0
    ensures FromRealCoordinate(voxelSize, x, 0.0, CENTRE_Z) == RightOf(voxelSize, k)
    ensures x < BOUNDARY_BOX_MAX_X <==> k as real < Half(voxelSize)
    ensures (BOUNDARY_BOX_MAX_X - BOUNDARY_BOX_MIN_X) / voxelSize == 2.0 * Half(voxelSize)
  {
    var h := Half(voxelSize);
    assert h * voxelSize == BOUNDARY_BOX_MAX_X;
    Divided(x - BOUNDARY_BOX_MIN_X, k as real + h, voxelSize);
    Divided(0.0 - BOUNDARY_BOX_MIN_X, h, voxelSize);
    assert (k as real + h).Floor == k + h.Floor;
    Compare(k as real, h, voxelSize, x, BOUNDARY_BOX_MAX_X);
    Divided(BOUNDARY_BOX_MAX_X - BOUNDARY_BOX_MIN_X, 2.0 * h, voxelSize);
  }

  /** Scanning k steps in millimetres is scanning k voxels, and the end of the box is reached after
      Half(voxelSize) of them. */
  lemma StepsAreVoxels(voxelSize: real, k: nat)
    requires voxelSize > 0.0
    ensures Along(voxelSize, k) >= 0.0
    ensures FromRealCoordinate(voxelSize, Along(voxelSize, k), 0.0, CENTRE_Z) == RightOf(voxelSize, k)
    ensures Along(voxelSize, k) < BOUNDARY_BOX_MAX_X <==> k as real < Half(voxelSize)
    ensures (BOUNDARY_BOX_MAX_X - BOUNDARY_BOX_MIN_X) / voxelSize == 2.0 * Half(voxelSize)
  {
    AlongIsProduct(voxelSize, k);
    StepsOfLength(voxelSize, k, Along(voxelSize, k));
  }

  /** The fractional part of Half(voxelSize) decides whether the last voxel of the scan lies in the box. */
  predicate ScanFits(voxelSize: real)
    requires voxelSize > 0.0
  {
    var h := Half(voxelSize);
    h == h.Floor as real || h - h.Floor as real >= 0.5
  }

  lemma DoubleFloor(h: real)
    requires h >= 0.0
    ensures (2.0 * h).Floor == 2 * h.Floor + (if h - h.Floor as real >= 0.5 then 1 else 0)
  {
  }

  /** The scan to the right stays inside the box exactly for the voxel sizes that ScanFits describes;
      for any other size the voxel it ends on has x == width. */
  lemma ScanStaysInBox(voxelSize: real, valid: Voxel -> bool)
    requires 0.0 < voxelSize <= BOUNDARY_BOX_MAX_Z - BOUNDARY_BOX_MIN_Z
    ensures ScanFits(voxelSize)
      <==> forall k: nat | Along(voxelSize, k) < BOUNDARY_BOX_MAX_X ::
             InBox(MakeGrid(voxelSize, valid), RightOf(voxelSize, k))
  {
    var g := MakeGrid(voxelSize, valid);
    var h := Half(voxelSize);
    CentreInBox(voxelSize, valid);
    StepsAreVoxels(voxelSize, 0);
    DoubleFloor(h);
    if ScanFits(voxelSize) {
      forall k: nat | Along(voxelSize, k) < BOUNDARY_BOX_MAX_X
        ensures InBox(g, RightOf(voxelSize, k))
      {
        StepsAreVoxels(voxelSize, k);
      }
    } else {
      StepsAreVoxels(voxelSize, h.Floor);
      assert !InBox(g, RightOf(voxelSize, h.Floor));
    }
  }

  lemma CentreInBox(voxelSize: real, valid: Voxel -> bool)
    requires 0.0 < voxelSize <= BOUNDARY_BOX_MAX_Z - BOUNDARY_BOX_MIN_Z
    ensures InBox(MakeGrid(voxelSize, valid), Centre(voxelSize)) && Centre(voxelSize).x == Half(voxelSize).Floor
  {
    CentreAcross(voxelSize);
    CentreInHeight(voxelSize);
  }

  lemma CentreAcross(voxelSize: real)
    requires 0.0 < voxelSize <= BOUNDARY_BOX_MAX_Z - BOUNDARY_BOX_MIN_Z
    ensures var x := (0.0 - BOUNDARY_BOX_MIN_X) / voxelSize;
      x == Half(voxelSize) && 0 <= x.Floor < ((BOUNDARY_BOX_MAX_X - BOUNDARY_BOX_MIN_X) / voxelSize).Floor
  {
    var h := Half(voxelSize);
    assert h * voxelSize == BOUNDARY_BOX_MAX_X;
    Ordered(h, 1.0, voxelSize);
    Divided(0.0 - BOUNDARY_BOX_MIN_X, h, voxelSize);
    Divided(BOUNDARY_BOX_MAX_X - BOUNDARY_BOX_MIN_X, 2.0 * h, voxelSize);
    DoubleFloor(h);
  }

  lemma CentreInHeight(voxelSize: real)
    requires 0.0 < voxelSize <= BOUNDARY_BOX_MAX_Z - BOUNDARY_BOX_MIN_Z
    ensures var z := (CENTRE_Z - BOUNDARY_BOX_MIN_Z) / voxelSize;
      0 <= z.Floor < ((BOUNDARY_BOX_MAX_Z - BOUNDARY_BOX_MIN_Z) / voxelSize).Floor
  {
    var z := (CENTRE_Z - BOUNDARY_BOX_MIN_Z) / voxelSize;
    assert z * voxelSize == 35.0;
    Divided(BOUNDARY_BOX_MAX_Z - BOUNDARY_BOX_MIN_Z, 2.0 * z, voxelSize);
    Ordered(z, 0.5, voxelSize);
    DoubleFloor(z);
  }

  /** Where the scan runs off the right end, the last voxel is on the edge of the box. */
  lemma LastVoxelOnEdge(voxelSize: real, valid: Voxel -> bool, k: nat)
    requires 0.0 < voxelSize <= BOUNDARY_BOX_MAX_Z - BOUNDARY_BOX_MIN_Z && ScanFits(voxelSize)
    requires Along(voxelSize, k) < BOUNDARY_BOX_MAX_X <= Along(voxelSize, k + 1)
    ensures RightOf(voxelSize, k).x == MakeGrid(voxelSize, valid).width - 1
  {
    CentreInBox(voxelSize, valid);
    StepsAreVoxels(voxelSize, k);
    StepsAreVoxels(voxelSize, k + 1);
    DoubleFloor(Half(voxelSize));
  }

  /** The first k voxels of the scan are valid, so that it goes on to voxel k. */
  predicate Passed(g: Grid, centre: Voxel, k: nat) {
    forall j | 0 <= j < k :: g.valid(Right(centre, j))
  }

  /** The scan ends on this voxel of the row: it is valid like all before it, and the next one is invalid or outside
      the box. */
  predicate StopsAt(g: Grid, centre: Voxel, start: Voxel) {
    && InBox(g, start) && centre.x <= start.x && start == Right(centre, start.x - centre.x)
    && Passed(g, centre, start.x - centre.x + 1)
    && (start.x == g.width - 1 || !g.valid(Right(start, 1)))
  }

  lemma StopIsUnique(g: Grid, centre: Voxel, a: Voxel, b: Voxel)
    requires StopsAt(g, centre, a) && StopsAt(g, centre, b)
    ensures a == b
  {
    assert Right(a, 1) == Right(centre, a.x - centre.x + 1);
    assert Right(b, 1) == Right(centre, b.x - centre.x + 1);
  }

  /** An invalid voxel to the right of the centre stops the scan inside the box. */
  ghost predicate Blocked(g: Grid, centre: Voxel) {
    exists j: nat :: InBox(g, Right(centre, j)) && !g.valid(Right(centre, j))
  }

  /** What the scan relies on, free of divisions. */
  ghost predicate Regular(voxelSize: real, g: Grid, centre: Voxel) {
    forall k: nat {:trigger Along(voxelSize, k)} | Passed(g, centre, k) && Along(voxelSize, k) < BOUNDARY_BOX_MAX_X ::
      && InBox(g, Right(centre, k))
      && (BOUNDARY_BOX_MAX_X <= Along(voxelSize, k) + voxelSize && g.valid(Right(centre, k))
          ==> centre.x + k == g.width - 1)
  }

  /** The scan never leaves the box exactly for the voxel sizes that ScanFits describes and for the regions
      that stop it. */
  lemma ScanIsRegular(voxelSize: real, valid: Voxel -> bool)
    requires 0.0 < voxelSize <= BOUNDARY_BOX_MAX_Z - BOUNDARY_BOX_MIN_Z
    ensures var g := MakeGrid(voxelSize, valid);
      Regular(voxelSize, g, Centre(voxelSize)) <==> ScanFits(voxelSize) || Blocked(g, Centre(voxelSize))
  {
    var g, centre := MakeGrid(voxelSize, valid), Centre(voxelSize);
    if ScanFits(voxelSize) {
      FittingScanIsRegular(voxelSize, valid);
    } else if Blocked(g, centre) {
      var j: nat :| InBox(g, Right(centre, j)) && !g.valid(Right(centre, j));
      BlockedInTime(voxelSize, valid, j);
    } else {
      CentreInBox(voxelSize, valid);
      var k := Half(voxelSize).Floor;
      StepsAreVoxels(voxelSize, k);
      LeavesTheBox(Half(voxelSize), centre.x, g.width, k);
      assert Passed(g, centre, k);
      assert !InBox(g, Right(centre, k));
    }
  }

  lemma LeavesTheBox(h: real, x: int, width: int, k: int)
    requires h >= 0.0 && x == k == h.Floor && width == (2.0 * h).Floor
    requires h != h.Floor as real && h - h.Floor as real < 0.5
    ensures k as real < h && x + k == width
  {
    DoubleFloor(h);
  }

  lemma FittingScanIsRegular(voxelSize: real, valid: Voxel -> bool)
    requires 0.0 < voxelSize <= BOUNDARY_BOX_MAX_Z - BOUNDARY_BOX_MIN_Z && ScanFits(voxelSize)
    ensures Regular(voxelSize, MakeGrid(voxelSize, valid), Centre(voxelSize))
  {
    var g, centre := MakeGrid(voxelSize, valid), Centre(voxelSize);
    ScanStaysInBox(voxelSize, valid);
    forall k: nat | Along(voxelSize, k) < BOUNDARY_BOX_MAX_X
      ensures InBox(g, Right(centre, k))
      ensures Along(voxelSize, k) + voxelSize >= BOUNDARY_BOX_MAX_X ==> centre.x + k == g.width - 1
    {
      assert InBox(g, RightOf(voxelSize, k));
      if Along(voxelSize, k + 1) >= BOUNDARY_BOX_MAX_X {
        LastVoxelOnEdge(voxelSize, valid, k);
      }
    }
  }

  /** The scan meets a voxel of the box before it has crossed half the box. */
  lemma BlockedInTime(voxelSize: real, valid: Voxel -> bool, j: nat)
    requires 0.0 < voxelSize <= BOUNDARY_BOX_MAX_Z - BOUNDARY_BOX_MIN_Z
    requires var g, v := MakeGrid(voxelSize, valid), Right(Centre(voxelSize), j);
             InBox(g, v) && !g.valid(v)
    ensures Regular(voxelSize, MakeGrid(voxelSize, valid), Centre(voxelSize))
  {
    var g, centre := MakeGrid(voxelSize, valid), Centre(voxelSize);
    CentreInBox(voxelSize, valid);
    StepsAreVoxels(voxelSize, j);
    BeforeHalf(Half(voxelSize), centre.x, g.width, j);
    forall k: nat | Passed(g, centre, k) && Along(voxelSize, k) < BOUNDARY_BOX_MAX_X
      ensures InBox(g, Right(centre, k))
      ensures BOUNDARY_BOX_MAX_X <= Along(voxelSize, k) + voxelSize ==> !g.valid(Right(centre, k))
    {
      assert k <= j;
      if k < j {
        StepsAreVoxels(voxelSize, k + 1);
      }
    }
  }

  lemma BeforeHalf(h: real, x: int, width: int, j: nat)
    requires h >= 0.0 && x == h.Floor && width == (2.0 * h).Floor && x + j < width
    ensures j as real < h
  {
    DoubleFloor(h);
  }

  /** fromRealCoordinate at a point of the scan. */
  method ScanCoordinate(voxelSize: real, x: real, ghost k: nat, ghost centre: Voxel) returns (v: Voxel)
    requires voxelSize > 0.0 && x == Along(voxelSize, k) && centre == Centre(voxelSize)
    ensures v == Right(centre, k)
  {
    StepsAreVoxels(voxelSize, k);
    v := FromRealCoordinate(voxelSize, x, 0.0, CENTRE_Z);
  }

  /** The voxel size of 2 mm that the delta robot node uses fits. */
  lemma DeployedVoxelSizeFits()
    ensures ScanFits(2.0)
  {
    assert Half(2.0) == 250.0;
  }

  /** One of 7 mm would not: its scan ends outside the box. */
  lemma SevenDoesNotFit(valid: Voxel -> bool)
    ensures !ScanFits(7.0)
    ensures !InBox(MakeGrid(7.0, valid), RightOf(7.0, 71))
  {
    assert Half(7.0) * 7.0 == 500.0;
    assert Half(7.0).Floor == 71;
    DoubleFloor(Half(7.0));
    CentreInBox(7.0, valid);
    StepsAreVoxels(7.0, 71);
  }
}
