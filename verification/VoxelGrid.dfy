/**
 The voxel box of the delta robot: coordinates, flat indices and the border of the valid region.
 */
module VoxelGrid {

  datatype Voxel = Voxel(x: int, y: int, z: int)

  /** A box of voxels together with the kinematic predicate: valid(v) says that the effector can reach v. */
  datatype Grid = Grid(width: int, depth: int, height: int, valid: Voxel -> bool)

  predicate InBox(g: Grid, v: Voxel) {
    0 <= v.x < g.width && 0 <= v.y < g.depth && 0 <= v.z < g.height
  }

  function Size(g: Grid): int {
    g.width * g.depth * g.height
  }

  function Index(g: Grid, v: Voxel): int {
    v.x + v.y * g.width + v.z * g.width * g.depth
  }

  function Decode(g: Grid, i: int): Voxel
    requires g.width > 0 && g.depth > 0
  {
    Slab(g);
    Voxel(i % g.width, (i % (g.width * g.depth)) / g.width, i / (g.width * g.depth))
  }

  lemma Slab(g: Grid)
    requires g.width > 0 && g.depth > 0
    ensures g.width * g.depth > 0
  {
  }

  predicate OnEdge(g: Grid, v: Voxel) {
    v.x == 0 || v.x == g.width - 1 || v.y == 0 || v.y == g.depth - 1 || v.z == 0 || v.z == g.height - 1
  }

  /** In the 3x3x3 box around u. */
  predicate Near(u: Voxel, v: Voxel) {
    u.x - 1 <= v.x <= u.x + 1 && u.y - 1 <= v.y <= u.y + 1 && u.z - 1 <= v.z <= u.z + 1
  }

  /** A valid voxel on the edge of the box or next to an invalid one. */
  ghost predicate Border(g: Grid, v: Voxel) {
    g.valid(v) && (OnEdge(g, v) || exists u :: Near(v, u) && !g.valid(u))
  }

  ghost predicate Interior(g: Grid, v: Voxel) {
    InBox(g, v) && g.valid(v) && !Border(g, v)
  }

  /** The neighbours through the six faces. */
  predicate FaceNeighbour(u: Voxel, v: Voxel) {
    v in {Voxel(u.x - 1, u.y, u.z), Voxel(u.x + 1, u.y, u.z), Voxel(u.x, u.y - 1, u.z),
          Voxel(u.x, u.y + 1, u.z), Voxel(u.x, u.y, u.z - 1), Voxel(u.x, u.y, u.z + 1)}
  }

  // ------------------------------------------------------------ index arithmetic

  lemma {:induction false} MulMono(a: int, b: int, m: int)
    requires a <= b && 0 <= m
    ensures a * m <= b * m
    decreases m
  {
    if m > 0 {
      MulMono(a, b, m - 1);
      assert a * m == a * (m - 1) + a;
      assert b * m == b * (m - 1) + b;
    }
  }

  lemma MulLess(a: int, b: int, m: int)
    requires 0 <= a < b && 0 <= m
    ensures 0 <= a * m && a * m + m <= b * m
  {
    MulMono(0, a, m);
    MulMono(a + 1, b, m);
    assert (a + 1) * m == a * m + m;
  }

  lemma IndexInRange(g: Grid, v: Voxel)
    requires InBox(g, v)
    ensures 0 <= Index(g, v) < Size(g)
    ensures v.x + v.y * g.width < g.width * g.depth
  {
    MulLess(v.y, g.depth, g.width);
    assert v.y * g.width + g.width <= g.depth * g.width;
    var slab := g.width * g.depth;
    MulLess(v.z, g.height, slab);
    assert v.z * g.width * g.depth == v.z * slab && Size(g) == g.height * slab;
  }

  /** Quotient and remainder are unique. */
  lemma DivMod(q: int, r: int, m: int, n: int)
    requires 0 <= r < m && n == q * m + r
    ensures n / m == q && n % m == r
  {
    var q', r' := n / m, n % m;
    assert n == q' * m + r' && 0 <= r' < m;
    assert (q + 1) * m == q * m + m;
    assert (q' + 1) * m == q' * m + m;
    if q < q' {
      MulMono(q + 1, q', m);
    } else if q' < q {
      MulMono(q' + 1, q, m);
    }
  }

  lemma Factor(z: int, w: int, d: int, y: int)
    ensures z * (w * d) == (z * d) * w
    ensures z * w * d == z * (w * d)
    ensures (z * d + y) * w == (z * d) * w + y * w
  {
    calc {
      z * (w * d);
      z * (d * w);
      (z * d) * w;
    }
  }

  /** The flat index of (x, y, z), taken apart by the slab and by the row. */
  lemma Decoding(g: Grid, x: int, y: int, z: int, i: int)
    requires g.width > 0 && g.depth > 0 && g.width * g.depth > 0
    requires 0 <= x < g.width && 0 <= y < g.depth
    requires i == x + y * g.width + z * (g.width * g.depth)
    ensures Decode(g, i) == Voxel(x, y, z)
  {
    var slab := g.width * g.depth;
    MulLess(y, g.depth, g.width);
    assert g.depth * g.width == slab;
    DivMod(z, x + y * g.width, slab, i);
    DivMod(y, x, g.width, x + y * g.width);
    Factor(z, g.width, g.depth, y);
    DivMod(z * g.depth + y, x, g.width, i);
  }

  /** The decoding in the inner fill undoes the encoding. */
  lemma DecodeOfIndex(g: Grid, v: Voxel)
    requires InBox(g, v)
    ensures g.width > 0 && g.depth > 0 && Decode(g, Index(g, v)) == v
  {
    Slab(g);
    Factor(v.z, g.width, g.depth, v.y);
    Decoding(g, v.x, v.y, v.z, Index(g, v));
  }

  lemma Commute(a: int, b: int)
    ensures a * b == b * a
  {
  }

  lemma Quotient(i: int, m: int, n: int) returns (q: int, r: int)
    requires m > 0 && 0 <= i < n * m
    ensures 0 <= q < n && 0 <= r < m && i == q * m + r
  {
    q, r := i / m, i % m;
    if q >= n {
      MulMono(n, q, m);
    } else if q < 0 {
      MulMono(q, -1, m);
    }
  }

  /** And the encoding undoes the decoding. */
  lemma IndexOfDecode(g: Grid, i: int)
    requires g.width > 0 && g.depth > 0 && 0 <= i < Size(g)
    ensures InBox(g, Decode(g, i)) && Index(g, Decode(g, i)) == i
  {
    var slab := g.width * g.depth;
    Slab(g);
    Commute(slab, g.height);
    var z, r := Quotient(i, slab, g.height);
    Commute(g.depth, g.width);
    var y, x := Quotient(r, g.width, g.depth);
    Decoding(g, x, y, z, i);
    Factor(z, g.width, g.depth, y);
  }

  lemma IndexInjective(g: Grid, u: Voxel, v: Voxel)
    requires InBox(g, u) && InBox(g, v) && Index(g, u) == Index(g, v)
    ensures u == v
  {
    DecodeOfIndex(g, u);
    DecodeOfIndex(g, v);
  }
}
