/**
 * The chunk generator's terrain height and column fill
 * (GotChunkGenerator.java): a smoothstep-weighted bilinear blend of
 * per-biome base heights and variations sampled on a 32-block grid, two
 * noise terms scaled by the blended variation, and the stone / fluid / air
 * rule that turns a height into a column of blocks.
 */
module ChunkGenerator {
  import opened JavaMath
  import opened Interpolation

  /** The side of one blending cell, in blocks. */
  const TransitionSize: int := 32

  /**
   * The lower corner of the blending cell of a Java int coordinate:
   * `(x / 32) * 32`, one cell lower again when x is negative, with Java's
   * int wrap-around (only x = Integer.MIN_VALUE wraps). It is a multiple of
   * 32 and, in wrapped int arithmetic, x lies 0 to 32 blocks above it:
   * strictly below 32 for x >= 0 and strictly above 0 for x < 0.
   */
  function GridBase(x: int): (b: int)
    requires IsInt32(x)
    ensures IsInt32(b) && b % TransitionSize == 0
    ensures 0 <= Wrap32(x - b) <= TransitionSize
    ensures x >= 0 ==> Wrap32(x - b) < TransitionSize
    ensures x < 0 ==> 0 < Wrap32(x - b)
  {
    var q := JavaDiv(x, TransitionSize);
    var b := q * TransitionSize;
    if x >= 0 then
      b
    else if x == IntMin then
      assert b == IntMin;
      assert Wrap32(b - TransitionSize) == IntMax - 31;
      assert Wrap32(x - (IntMax - 31)) == TransitionSize;
      Wrap32(b - TransitionSize)
    else
      assert -x < 0x8000_0000;
      Wrap32(b - TransitionSize)
  }

  /** `Math.abs((double) (x - base) / 32)`: how far across its cell x lies. */
  function CellFraction(x: int, base: int): (f: real)
    ensures f >= 0.0
  {
    Abs(Wrap32(x - base) as real / TransitionSize as real)
  }

  /** The fraction lies in [0, 1], so the `Math.abs` never changes it. */
  lemma CellFractionRange(x: int)
    requires IsInt32(x)
    ensures 0.0 <= CellFraction(x, GridBase(x)) <= 1.0
    ensures CellFraction(x, GridBase(x)) == Wrap32(x - GridBase(x)) as real / TransitionSize as real
  {
  }

  /**
   * On a grid line the two corrections meet: a coordinate x >= 0 on a
   * multiple of 32 is its own lower corner (weight 0), while a negative
   * one is the far corner of the cell below it (fraction 1, weight 1).
   */
  lemma GridLines(x: int)
    requires IsInt32(x) && x % TransitionSize == 0
    ensures x >= 0 ==> GridBase(x) == x && SmoothStep(CellFraction(x, GridBase(x))) == 0.0
    ensures x < 0 ==> (Wrap32(GridBase(x) + TransitionSize) == x
      && CellFraction(x, GridBase(x)) == 1.0 && SmoothStep(CellFraction(x, GridBase(x))) == 1.0)
  {
    if x < 0 {
      assert Wrap32(x - GridBase(x)) == TransitionSize;
    }
  }

  /** The smoothstep of the cell lies in [0, 1]. */
  lemma WeightRange(x: int)
    requires IsInt32(x)
    ensures 0.0 <= SmoothStep(CellFraction(x, GridBase(x))) <= 1.0
  {
    CellFractionRange(x);
    SmoothStepRange(CellFraction(x, GridBase(x)));
  }

  /** The blending cell of a column: its lower corners and its two smoothstep weights. */
  datatype Cell = Cell(baseX: int, baseY: int, weightX: real, weightY: real)

  /** The cell and weights both blends compute for (x, y). */
  function CellAt(x: int, y: int): (c: Cell)
    requires IsInt32(x) && IsInt32(y)
    ensures c.baseX == GridBase(x) && c.baseY == GridBase(y)
    ensures 0.0 <= c.weightX <= 1.0 && 0.0 <= c.weightY <= 1.0
  {
    WeightRange(x);
    WeightRange(y);
    Cell(GridBase(x), GridBase(y),
         SmoothStep(CellFraction(x, GridBase(x))), SmoothStep(CellFraction(y, GridBase(y))))
  }

  /** The four-term weighted sum of the source's bilinear interpolation. */
  function Blend(wx: real, wy: real, v00: real, v10: real, v01: real, v11: real): real {
    v00 * (1.0 - wx) * (1.0 - wy) + v10 * wx * (1.0 - wy) + v01 * (1.0 - wx) * wy + v11 * wx * wy
  }

  /** The four-term sum is linear interpolation along x and then along y. */
  lemma BlendIsBilerp(wx: real, wy: real, v00: real, v10: real, v01: real, v11: real)
    ensures Blend(wx, wy, v00, v10, v01, v11) == Bilerp(wx, wy, v00, v10, v01, v11)
  {
    var a := Lerp(wx, v00, v10);
    var b := Lerp(wx, v01, v11);
    assert a == v00 * (1.0 - wx) + v10 * wx;
    assert b == v01 * (1.0 - wx) + v11 * wx;
    assert Bilerp(wx, wy, v00, v10, v01, v11) == a * (1.0 - wy) + b * wy;
    assert a * (1.0 - wy) == v00 * (1.0 - wx) * (1.0 - wy) + v10 * wx * (1.0 - wy);
    assert b * wy == v01 * (1.0 - wx) * wy + v11 * wx * wy;
  }

  /** For weights in [0, 1], the blend is a convex combination: it lies between the smallest and the largest corner. */
  lemma BlendBetween(wx: real, wy: real, v00: real, v10: real, v01: real, v11: real)
    requires 0.0 <= wx <= 1.0 && 0.0 <= wy <= 1.0
    ensures Min(Min(v00, v10), Min(v01, v11)) <= Blend(wx, wy, v00, v10, v01, v11)
    ensures Blend(wx, wy, v00, v10, v01, v11) <= Max(Max(v00, v10), Max(v01, v11))
  {
    BlendIsBilerp(wx, wy, v00, v10, v01, v11);
    BilerpBetween(wx, uz := wy, v00 := v00, v10 := v10, v01 := v01, v11 := v11);
  }

  /** Four equal corners blend to their common value, whatever the weights. */
  lemma BlendEqualCorners(wx: real, wy: real, v: real)
    ensures Blend(wx, wy, v, v, v, v) == v
  {
    BlendIsBilerp(wx, wy, v, v, v, v);
    assert Lerp(wx, v, v) == v;
    assert Lerp(wy, v, v) == v;
  }

  /** The four corner samples of a cell: at its lower corners and 32 blocks further (in Java int arithmetic). */
  datatype Corners = Corners(v00: real, v10: real, v01: real, v11: real)

  function Far(b: int): int {
    Wrap32(b + TransitionSize)
  }

  function CornersOf(c: Cell, sample: (int, int) -> real): Corners {
    Corners(sample(c.baseX, c.baseY), sample(Far(c.baseX), c.baseY),
            sample(c.baseX, Far(c.baseY)), sample(Far(c.baseX), Far(c.baseY)))
  }

  /** `function.apply` at each corner. */
  function MapCorners(f: real -> real, k: Corners): Corners {
    Corners(f(k.v00), f(k.v10), f(k.v01), f(k.v11))
  }

  function CornerMin(k: Corners): real {
    Min(Min(k.v00, k.v10), Min(k.v01, k.v11))
  }

  function CornerMax(k: Corners): real {
    Max(Max(k.v00, k.v10), Max(k.v01, k.v11))
  }

  /** The blend of a cell's corner values with the cell's weights; it lies between the smallest and the largest corner. */
  function BlendCell(c: Cell, k: Corners): (v: real)
    requires 0.0 <= c.weightX <= 1.0 && 0.0 <= c.weightY <= 1.0
    ensures CornerMin(k) <= v <= CornerMax(k)
  {
    BlendBetween(c.weightX, c.weightY, k.v00, k.v10, k.v01, k.v11);
    Blend(c.weightX, c.weightY, k.v00, k.v10, k.v01, k.v11)
  }

  /**
   * `getValueWithTransition`: the blend of `f` applied to the base height
   * at the four corners of (x, y)'s cell. It lies between the smallest and
   * the largest of the four corner values.
   */
  function ValueWithTransition(x: int, y: int, baseHeight: (int, int) -> real, f: real -> real): (v: real)
    requires IsInt32(x) && IsInt32(y)
    ensures CornerMin(MapCorners(f, CornersOf(CellAt(x, y), baseHeight))) <= v
    ensures v <= CornerMax(MapCorners(f, CornersOf(CellAt(x, y), baseHeight)))
  {
    var c := CellAt(x, y);
    BlendCell(c, MapCorners(f, CornersOf(c, baseHeight)))
  }

  /**
   * `getValueWithTransitionForVariation`: the blend of the height
   * variation at the four corners of (x, y)'s cell, between the smallest
   * and the largest of them.
   */
  function ValueWithTransitionForVariation(x: int, y: int, heightVariation: (int, int) -> real): (v: real)
    requires IsInt32(x) && IsInt32(y)
    ensures CornerMin(CornersOf(CellAt(x, y), heightVariation)) <= v <= CornerMax(CornersOf(CellAt(x, y), heightVariation))
  {
    var c := CellAt(x, y);
    BlendCell(c, CornersOf(c, heightVariation))
  }

  function Identity(v: real): real { v }

  /** With the identity function, the two transition functions agree: they share the cell and the weights and differ only in the sampler. */
  lemma TransitionsAgree(x: int, y: int, sample: (int, int) -> real)
    requires IsInt32(x) && IsInt32(y)
    ensures ValueWithTransition(x, y, sample, Identity) == ValueWithTransitionForVariation(x, y, sample)
  {
    var c := CellAt(x, y);
    assert MapCorners(Identity, CornersOf(c, sample)) == CornersOf(c, sample);
  }

  /** A region whose four corners share one value transitions to that value. */
  lemma TransitionOfUniformCorners(x: int, y: int, sample: (int, int) -> real, v: real)
    requires IsInt32(x) && IsInt32(y)
    requires CornersOf(CellAt(x, y), sample) == Corners(v, v, v, v)
    ensures ValueWithTransitionForVariation(x, y, sample) == v
  {
    var c := CellAt(x, y);
    BlendEqualCorners(c.weightX, c.weightY, v);
  }

  /**
   * The samplers the height needs: the per-biome base height and height
   * variation at a world block, and the two noise fields at a scaled
   * coordinate. They are defined outside the generator.
   */
  datatype Terrain = Terrain(
    baseHeight: (int, int) -> real,
    heightVariation: (int, int) -> real,
    continentNoise: (real, real) -> real,
    detailNoise: (real, real) -> real)

  function BlendedBase(t: Terrain, wx: int, wz: int): real
    requires IsInt32(wx) && IsInt32(wz)
  {
    ValueWithTransition(wx, wz, t.baseHeight, Identity)
  }

  function BlendedVariation(t: Terrain, wx: int, wz: int): real
    requires IsInt32(wx) && IsInt32(wz)
  {
    ValueWithTransitionForVariation(wx, wz, t.heightVariation)
  }

  function Continent(t: Terrain, wx: int, wz: int): real {
    t.continentNoise(wx as real / 160.0, wz as real / 160.0)
  }

  function Detail(t: Terrain, wx: int, wz: int): real {
    t.detailNoise(wx as real / 24.0, wz as real / 24.0)
  }

  /**
   * `computeTerrainHeight`: the floor of the blended base height plus the
   * two noise terms, each scaled by the blended variation (by 0.8 and 0.2).
   * The result is within one block below and at most the height the
   * unrounded sum gives.
   */
  function TerrainHeight(t: Terrain, wx: int, wz: int): (h: int)
    requires IsInt32(wx) && IsInt32(wz)
    ensures var sum := BlendedBase(t, wx, wz) + BlendedVariation(t, wx, wz) * (0.8 * Continent(t, wx, wz) + 0.2 * Detail(t, wx, wz));
      h as real <= sum < h as real + 1.0
  {
    HeightOf(BlendedBase(t, wx, wz), BlendedVariation(t, wx, wz), Continent(t, wx, wz), Detail(t, wx, wz))
  }

  /** `Mth.floor(blendedBase + continent * blendedVar * 0.8 + detail * blendedVar * 0.2)`. */
  function HeightOf(blendedBase: real, blendedVar: real, continent: real, detail: real): (h: int)
    ensures var sum := blendedBase + blendedVar * (0.8 * continent + 0.2 * detail);
      h as real <= sum < h as real + 1.0
  {
    NoiseFactor(continent, detail, blendedVar);
    Floor(blendedBase + continent * blendedVar * 0.8 + detail * blendedVar * 0.2)
  }

  lemma NoiseFactor(c: real, d: real, v: real)
    ensures c * v * 0.8 + d * v * 0.2 == v * (0.8 * c + 0.2 * d)
  {
  }

  /** Zero variation switches the noise off: the height is the floor of the blended base height. */
  lemma FlatWithoutVariation(t: Terrain, wx: int, wz: int)
    requires IsInt32(wx) && IsInt32(wz)
    requires BlendedVariation(t, wx, wz) == 0.0
    ensures TerrainHeight(t, wx, wz) == Floor(BlendedBase(t, wx, wz))
  {
  }

  /**
   * With both noise values in [-1, 1] and a non-negative variation, the
   * height lies within the variation of the blended base height.
   */
  lemma HeightWithinVariation(t: Terrain, wx: int, wz: int)
    requires IsInt32(wx) && IsInt32(wz)
    requires -1.0 <= Continent(t, wx, wz) <= 1.0 && -1.0 <= Detail(t, wx, wz) <= 1.0
    requires BlendedVariation(t, wx, wz) >= 0.0
    ensures BlendedBase(t, wx, wz) - BlendedVariation(t, wx, wz) - 1.0 < TerrainHeight(t, wx, wz) as real
    ensures TerrainHeight(t, wx, wz) as real <= BlendedBase(t, wx, wz) + BlendedVariation(t, wx, wz)
  {
    HeightOfWithin(BlendedBase(t, wx, wz), BlendedVariation(t, wx, wz), Continent(t, wx, wz), Detail(t, wx, wz));
  }

  lemma HeightOfWithin(b: real, v: real, c: real, d: real)
    requires -1.0 <= c <= 1.0 && -1.0 <= d <= 1.0 && v >= 0.0
    ensures b - v - 1.0 < HeightOf(b, v, c, d) as real <= b + v
  {
    var n := 0.8 * c + 0.2 * d;
    ScaledByUnit(v, n);
  }

  lemma ScaledByUnit(v: real, n: real)
    requires v >= 0.0 && -1.0 <= n <= 1.0
    ensures -v <= v * n <= v
  {
    if v > 0.0 {
      ScaleMonotone(n, 1.0, v);
      ScaleMonotone(-1.0, n, v);
    }
  }

  /** What one block of a generated column is. */
  datatype BlockState = Stone | Fluid | Air

  /** The column rule: stone up to the terrain height, fluid from there up to sea level, air above. */
  function ColumnState(y: int, h: int, sea: int): (s: BlockState)
    ensures s == Stone <==> y <= h
    ensures s == Fluid <==> h < y <= sea
    ensures s == Air <==> y > h && y > sea
  {
    if y <= h then Stone else if y <= sea then Fluid else Air
  }

  /** A column is layered: stone below any stone, air above any air, and fluid only when the terrain lies below sea level. */
  lemma ColumnLayered(y1: int, y2: int, h: int, sea: int)
    requires y1 <= y2
    ensures ColumnState(y2, h, sea) == Stone ==> ColumnState(y1, h, sea) == Stone
    ensures ColumnState(y1, h, sea) == Air ==> ColumnState(y2, h, sea) == Air
    ensures ColumnState(y1, h, sea) == Fluid ==> h < sea
  {
  }

  /** The world coordinate of local column l of chunk c: `(c << 4) + l` in Java int arithmetic. */
  function BlockCoord(chunk: int, local: int): (w: int)
    ensures IsInt32(w)
  {
    Wrap32(chunk * 16 + local)
  }

  /** The height of local column (lx, lz) of chunk (chunkX, chunkZ). */
  function ColumnHeight(t: Terrain, chunkX: int, chunkZ: int, lx: int, lz: int): int {
    TerrainHeight(t, BlockCoord(chunkX, lx), BlockCoord(chunkZ, lz))
  }

  /**
   * Writes one column of `fillFromNoise`: level index i (block y = minY + i)
   * of column (lx, lz) gets the column rule's state; no other block changes.
   */
  method FillColumn(blocks: array3<BlockState>, lx: int, lz: int, minY: int, h: int, sea: int)
    requires 0 <= lx < blocks.Length0 && 0 <= lz < blocks.Length2
    modifies blocks
    ensures forall i :: 0 <= i < blocks.Length1 ==> blocks[lx, i, lz] == ColumnState(minY + i, h, sea)
    ensures forall a, i, c :: (0 <= a < blocks.Length0 && 0 <= i < blocks.Length1 && 0 <= c < blocks.Length2
      && (a != lx || c != lz)) ==> blocks[a, i, c] == old(blocks[a, i, c])
  {
    for i := 0 to blocks.Length1
      invariant forall k :: 0 <= k < i ==> blocks[lx, k, lz] == ColumnState(minY + k, h, sea)
      invariant forall a, k, c :: (0 <= a < blocks.Length0 && 0 <= k < blocks.Length1 && 0 <= c < blocks.Length2
        && (a != lx || c != lz)) ==> blocks[a, k, c] == old(blocks[a, k, c])
    {
      blocks[lx, i, lz] := ColumnState(minY + i, h, sea);
    }
  }

  /**
   * `fillFromNoise` on a 16 x height x 16 block array: every block
   * (lx, i, lz) is the column rule's state for y = minY + i under the
   * terrain height of its column.
   */
  method FillFromNoise(t: Terrain, chunkX: int, chunkZ: int, minY: int, sea: int, blocks: array3<BlockState>)
    requires blocks.Length0 == 16 && blocks.Length2 == 16
    modifies blocks
    ensures forall a, i, c :: (0 <= a < 16 && 0 <= i < blocks.Length1 && 0 <= c < 16) ==>
      blocks[a, i, c] == ColumnState(minY + i, ColumnHeight(t, chunkX, chunkZ, a, c), sea)
  {
    for lx := 0 to 16
      invariant forall a, i, c :: (0 <= a < lx && 0 <= i < blocks.Length1 && 0 <= c < 16) ==>
        blocks[a, i, c] == ColumnState(minY + i, ColumnHeight(t, chunkX, chunkZ, a, c), sea)
    {
      for lz := 0 to 16
        invariant forall a, i, c :: (0 <= a < 16 && 0 <= i < blocks.Length1 && 0 <= c < 16
          && (a < lx || (a == lx && c < lz))) ==>
          blocks[a, i, c] == ColumnState(minY + i, ColumnHeight(t, chunkX, chunkZ, a, c), sea)
      {
        var h := TerrainHeight(t, BlockCoord(chunkX, lx), BlockCoord(chunkZ, lz));
        FillColumn(blocks, lx, lz, minY, h, sea);
      }
    }
  }

  /**
   * `getBaseColumn`: a fresh array of `levelHeight` states where entry i
   * is the column rule's state for y = minY + i under the terrain height
   * at (x, z), the same rule `fillFromNoise` uses.
   */
  method BaseColumn(t: Terrain, x: int, z: int, minY: int, levelHeight: nat, sea: int) returns (states: array<BlockState>)
    requires IsInt32(x) && IsInt32(z)
    ensures fresh(states) && states.Length == levelHeight
    ensures forall i :: 0 <= i < levelHeight ==> states[i] == ColumnState(minY + i, TerrainHeight(t, x, z), sea)
  {
    var h := TerrainHeight(t, x, z);
    states := new BlockState[levelHeight];
    for i := 0 to levelHeight
      invariant forall k :: 0 <= k < i ==> states[k] == ColumnState(minY + k, h, sea)
    {
      var y := minY + i;
      states[i] := ColumnState(y, h, sea);
    }
  }
}
