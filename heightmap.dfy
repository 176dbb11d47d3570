/**
 * The elevation raster (HeightmapLoader.java). Each pixel of the
 * topographic colour map is decoded from its HSV hue into either the ocean
 * sentinel -0.05 or a land elevation in [0, 1]; lookups go through the
 * shared warp and a Catmull-Rom bicubic filter clamped to the four
 * surrounding cells, and a ring search finds the nearest land cell.
 */
module Heightmap {
  import opened JavaMath
  import opened MapWarp

  /** Hue of the sea-level coast colour (cyan), decoded as elevation 0. */
  const HueSeaLevel: real := 0.49
  /** Hue of the mountain-peak colour (red), decoded as elevation 1. */
  const HuePeak: real := 0.02
  /** Ocean pixels are darker than this value ... */
  const OceanMaxV: real := 0.25
  /** ... and bluer than this hue. */
  const OceanMinH: real := 0.60
  /** Stored for ocean pixels, slightly below 0 so the filter crosses 0 at coasts. */
  const OceanValue: real := -0.05

  /** A decoded cell: the ocean sentinel or a land elevation in [0, 1]. */
  predicate IsElevation(e: real) {
    e == OceanValue || 0.0 <= e <= 1.0
  }

  datatype Hsv = Hsv(h: real, s: real, v: real)

  function Max3(r: real, g: real, b: real): real { MaxReal(r, MaxReal(g, b)) }
  function Min3(r: real, g: real, b: real): real { MinReal(r, MinReal(g, b)) }

  /**
   * The hue sector before division by 6: the channel difference over the
   * chroma, offset by 0, 2 or 4 according to the largest channel (red
   * first, then green); the red sector takes Java's float `% 6`.
   */
  function HueSector(r: real, g: real, b: real, cmax: real, delta: real): real
    requires delta > 0.0
  {
    if cmax == r then FloatRem((g - b) / delta, 6.0)
    else if cmax == g then (b - r) / delta + 2.0
    else (r - g) / delta + 4.0
  }

  /**
   * Converts channels to hue, saturation and value. The value is the
   * largest channel, the hue lies in [0, 1), and a grey pixel (all channels
   * equal) has hue 0.
   */
  function RgbToHsv(r: real, g: real, b: real): (c: Hsv)
    ensures c.v == Max3(r, g, b)
    ensures 0.0 <= c.h < 1.0
    ensures r == g == b ==> c.h == 0.0
  {
    var cmax := Max3(r, g, b);
    var cmin := Min3(r, g, b);
    var delta := cmax - cmin;
    var s := if cmax > 0.0 then delta / cmax else 0.0;
    var h := if delta > 0.0 then AdjustHue(HueSector(r, g, b, cmax, delta) / 6.0) else 0.0;
    if delta > 0.0 then HueInRange(r, g, b); Hsv(h, s, cmax) else Hsv(h, s, cmax)
  }

  /** `if (h < 0) h += 1`. */
  function AdjustHue(h: real): real {
    if h < 0.0 then h + 1.0 else h
  }

  /** Every channel difference is at most the chroma, so each sector ends in [0, 1) after the adjustment. */
  lemma HueInRange(r: real, g: real, b: real)
    requires Max3(r, g, b) - Min3(r, g, b) > 0.0
    ensures var delta := Max3(r, g, b) - Min3(r, g, b);
      0.0 <= AdjustHue(HueSector(r, g, b, Max3(r, g, b), delta) / 6.0) < 1.0
  {
    var delta := Max3(r, g, b) - Min3(r, g, b);
    RatioBound(g - b, delta);
    RatioBound(b - r, delta);
    RatioBound(r - g, delta);
  }

  /** A quantity no larger in magnitude than d > 0 has a ratio to d in [-1, 1]. */
  lemma RatioBound(x: real, d: real)
    requires d > 0.0 && -d <= x <= d
    ensures -1.0 <= x / d <= 1.0
  {
    var q := x / d;
    assert q * d == x;
    if q > 1.0 {
      ScaleMonotone(1.0, q, d);
    }
    if q < -1.0 {
      ScaleMonotone(q, -1.0, d);
    }
  }

  /** The ocean test: dark and blue. */
  predicate IsOceanPixel(c: Hsv) {
    c.v < OceanMaxV && c.h > OceanMinH
  }

  /** The land elevation of a hue: 0 at the coast hue, 1 at the peak hue, clamped to [0, 1]. */
  function LandElevation(h: real): (e: real)
    ensures 0.0 <= e <= 1.0
  {
    ClampReal((HueSeaLevel - h) / (HueSeaLevel - HuePeak), 0.0, 1.0)
  }

  /**
   * Decodes one HSV pixel. The result is the ocean sentinel exactly when
   * the pixel passes the ocean test, and a land elevation otherwise.
   */
  function DecodeHsv(c: Hsv): (e: real)
    ensures IsElevation(e)
    ensures e == OceanValue <==> IsOceanPixel(c)
    ensures !IsOceanPixel(c) ==> e == LandElevation(c.h)
  {
    if IsOceanPixel(c) then OceanValue else LandElevation(c.h)
  }

  /** The coast hue decodes to 0 and the peak hue to 1; hues beyond either end are clamped. */
  lemma LandElevationEnds(h: real)
    ensures LandElevation(HueSeaLevel) == 0.0 && LandElevation(HuePeak) == 1.0
    ensures h >= HueSeaLevel ==> LandElevation(h) == 0.0
    ensures h <= HuePeak ==> LandElevation(h) == 1.0
  {
  }

  /** Land elevation falls as the hue moves from red toward cyan. */
  lemma LandElevationMonotone(h1: real, h2: real)
    requires h1 <= h2
    ensures LandElevation(h2) <= LandElevation(h1)
  {
    assert (HueSeaLevel - h2) / 0.47 <= (HueSeaLevel - h1) / 0.47;
  }

  /** The three channels of an ARGB word as fractions of 255. */
  function Red(rgb: int): real { ByteAt(rgb, 16) as real / 255.0 }
  function Green(rgb: int): real { ByteAt(rgb, 8) as real / 255.0 }
  function Blue(rgb: int): real { ByteAt(rgb, 0) as real / 255.0 }

  /** Decodes the elevation of one `getRGB` word; the alpha byte is ignored. */
  function DecodePixel(rgb: int): (e: real)
    ensures IsElevation(e)
  {
    DecodeHsv(RgbToHsv(Red(rgb), Green(rgb), Blue(rgb)))
  }

  /**
   * The Catmull-Rom cubic through four consecutive samples, evaluated at
   * t between the middle two.
   */
  function Cubic(a: real, b: real, c: real, d: real, t: real): real {
    var t2 := t * t;
    var t3 := t2 * t;
    (-0.5 * a + 1.5 * b - 1.5 * c + 0.5 * d) * t3
      + (a - 2.5 * b + 2.0 * c - 0.5 * d) * t2
      + (-0.5 * a + 0.5 * c) * t
      + b
  }

  /** The cubic passes through its middle samples at t = 0 and t = 1. */
  lemma CubicEnds(a: real, b: real, c: real, d: real)
    ensures Cubic(a, b, c, d, 0.0) == b
    ensures Cubic(a, b, c, d, 1.0) == c
  {
  }

  /** Four equal samples give a constant curve. */
  lemma CubicConstant(v: real, t: real)
    ensures Cubic(v, v, v, v, t) == v
  {
  }

  /** The ring of a cell offset: its distance from the centre pixel under the maximum norm. */
  function Ring(a: int, b: int): nat {
    if AbsInt(a) >= AbsInt(b) then AbsInt(a) else AbsInt(b)
  }

  /**
   * The squared distance from the sample point, at offset (ox, oz) inside
   * its pixel, to the centre of the cell at offset (a, b).
   */
  function Dist2(a: int, b: int, ox: real, oz: real): (d: real)
    ensures d >= 0.0
  {
    var ddx := a as real - ox + 0.5;
    var ddz := b as real - oz + 0.5;
    ddx * ddx + ddz * ddz
  }

  /**
   * Whether the ring scan has visited offset (a, b) when it is about to
   * visit (dx, dz) of ring r: all inner rings, and the cells of ring r
   * that come earlier in column-major order.
   */
  predicate Visited(a: int, b: int, r: nat, dx: int, dz: int) {
    Ring(a, b) < r || (Ring(a, b) == r && (a < dx || (a == dx && b < dz)))
  }

  /** Moving from (dx, dz) to (dx, dz + 1) adds only the cell (dx, dz), and only if it lies on ring r. */
  lemma NextCell(r: nat, dx: int, dz: int)
    ensures forall a, b :: Visited(a, b, r, dx, dz + 1) <==> Visited(a, b, r, dx, dz) || (a == dx && b == dz && Ring(a, b) == r)
  {
  }

  /** Finishing column dx of ring r (at dz = r + 1) is the same as starting column dx + 1 (at dz = -r). */
  lemma NextColumn(r: nat, dx: int, next: int, first: int, past: int)
    requires next == dx + 1 && first == -(r as int) && past == r + 1
    ensures forall a, b :: Visited(a, b, r, dx, past) <==> Visited(a, b, r, next, first)
  {
  }

  lemma SquareMonotone(x: real, y: real)
    requires 0.0 <= x <= y
    ensures x * x <= y * y
  {
    assert y * y - x * x == (y - x) * (y + x);
    assert (y - x) * (y + x) >= 0.0;
  }

  /** A coordinate offset of magnitude at least r >= 1 is more than r - 1 from a point inside the pixel. */
  lemma AxisLowerBound(a: int, r: nat, o: real)
    requires r >= 1 && AbsInt(a) >= r && 0.0 <= o < 1.0
    ensures (a as real - o + 0.5) * (a as real - o + 0.5) >= (r - 1) as real * (r - 1) as real
  {
    var u := a as real - o + 0.5;
    if a >= 0 {
      SquareMonotone((r - 1) as real, u);
    } else {
      SquareMonotone((r - 1) as real, -u);
      assert (-u) * (-u) == u * u;
    }
  }

  /**
   * Every cell in ring r or beyond is at squared distance at least (r - 1)^2,
   * which is why the scan may stop once that exceeds the best distance.
   */
  lemma RingLowerBound(a: int, b: int, r: nat, ox: real, oz: real)
    requires r >= 1 && Ring(a, b) >= r
    requires 0.0 <= ox < 1.0 && 0.0 <= oz < 1.0
    ensures Dist2(a, b, ox, oz) >= (r - 1) as real * (r - 1) as real
  {
    var ddx := a as real - ox + 0.5;
    var ddz := b as real - oz + 0.5;
    assert ddx * ddx >= 0.0 && ddz * ddz >= 0.0;
    if AbsInt(a) >= r {
      AxisLowerBound(a, r, ox);
    } else {
      AxisLowerBound(b, r, oz);
    }
  }

  /** The elevation raster and its load state. */
  class HeightmapLoader {
    var imageWidth: int
    var imageHeight: int
    var elev: array2<real>
    var loaded: bool

    /** The dimensions match the raster, every cell is decoded, and nothing is stored before loading. */
    ghost predicate Valid()
      reads this, elev
    {
      elev.Length0 == imageWidth && elev.Length1 == imageHeight
      && (forall i, j :: 0 <= i < imageWidth && 0 <= j < imageHeight ==> IsElevation(elev[i, j]))
      && (!loaded ==> imageWidth == 0 && imageHeight == 0)
    }

    constructor ()
      ensures Valid() && !loaded
    {
      imageWidth := 0;
      imageHeight := 0;
      elev := new real[0, 0];
      loaded := false;
    }

    /**
     * Decodes every pixel of the image (given as its `getRGB` words) into
     * a fresh raster of the same size and marks the map loaded.
     */
    method Load(img: array2<int>)
      modifies this
      ensures Valid() && loaded
      ensures imageWidth == img.Length0 && imageHeight == img.Length1
      ensures fresh(elev)
      ensures forall i, j :: 0 <= i < imageWidth && 0 <= j < imageHeight ==> elev[i, j] == DecodePixel(img[i, j])
    {
      var w := img.Length0;
      var h := img.Length1;
      var e := new real[w, h];
      for px := 0 to w
        invariant forall i, j :: 0 <= i < px && 0 <= j < h ==> e[i, j] == DecodePixel(img[i, j])
      {
        for pz := 0 to h
          invariant forall i, j :: 0 <= i < px && 0 <= j < h ==> e[i, j] == DecodePixel(img[i, j])
          invariant forall j :: 0 <= j < pz ==> e[px, j] == DecodePixel(img[px, j])
        {
          e[px, pz] := DecodePixel(img[px, pz]);
        }
      }
      imageWidth, imageHeight := w, h;
      elev := e;
      loaded := true;
    }

    predicate InBounds(px: int, pz: int)
      reads this
    {
      0 <= px < imageWidth && 0 <= pz < imageHeight
    }

    /** The stored cell, or the ocean sentinel for any coordinate outside the raster. */
    function Raw(px: int, pz: int): (e: real)
      requires Valid()
      reads this, elev
      ensures IsElevation(e)
      ensures !InBounds(px, pz) ==> e == OceanValue
      ensures InBounds(px, pz) ==> e == elev[px, pz]
    {
      if !InBounds(px, pz) then OceanValue else elev[px, pz]
    }

    /** The cubic along x through row pz, around column x1. */
    function CubicRow(x1: int, pz: int, tx: real): real
      requires Valid()
      reads this, elev
    {
      Cubic(Raw(x1 - 1, pz), Raw(x1, pz), Raw(x1 + 1, pz), Raw(x1 + 2, pz), tx)
    }

    /** The smallest of the four cells around (x1 + 0.5, z1 + 0.5). */
    function CellLow(x1: int, z1: int): real
      requires Valid()
      reads this, elev
    {
      MinReal(MinReal(Raw(x1, z1), Raw(x1 + 1, z1)), MinReal(Raw(x1, z1 + 1), Raw(x1 + 1, z1 + 1)))
    }

    /** The largest of the four cells around (x1 + 0.5, z1 + 0.5). */
    function CellHigh(x1: int, z1: int): real
      requires Valid()
      reads this, elev
    {
      MaxReal(MaxReal(Raw(x1, z1), Raw(x1 + 1, z1)), MaxReal(Raw(x1, z1 + 1), Raw(x1 + 1, z1 + 1)))
    }

    /** The unclamped Catmull-Rom value: cubics along x in four rows, then a cubic along z. */
    function CatmullRom(x1: int, z1: int, tx: real, tz: real): real
      requires Valid()
      reads this, elev
    {
      Cubic(CubicRow(x1, z1 - 1, tx), CubicRow(x1, z1, tx), CubicRow(x1, z1 + 1, tx), CubicRow(x1, z1 + 2, tx), tz)
    }

    /**
     * The bicubic elevation at a fractional map position, with overshoot
     * clamped: it always lies between the smallest and the largest of the
     * four surrounding cells, so it is never below the ocean sentinel nor
     * above 1.
     */
    function Bicubic(mx: real, mz: real): (e: real)
      requires Valid()
      reads this, elev
      ensures CellLow(Floor(mx), Floor(mz)) <= e <= CellHigh(Floor(mx), Floor(mz))
      ensures OceanValue <= e <= 1.0
    {
      var x1 := Floor(mx);
      var z1 := Floor(mz);
      var lo := CellLow(x1, z1);
      var hi := CellHigh(x1, z1);
      ClampReal(CatmullRom(x1, z1, mx - x1 as real, mz - z1 as real), lo, hi)
    }

    /** At a grid point the filter returns the stored cell (or the sentinel outside the raster). */
    lemma BicubicAtGridPoint(px: int, pz: int)
      requires Valid()
      ensures Bicubic(px as real, pz as real) == Raw(px, pz)
    {
      assert Floor(px as real) == px;
      assert Floor(pz as real) == pz;
      CubicEnds(Raw(px - 1, pz), Raw(px, pz), Raw(px + 1, pz), Raw(px + 2, pz));
      CubicEnds(CubicRow(px, pz - 1, 0.0), CubicRow(px, pz, 0.0), CubicRow(px, pz + 1, 0.0), CubicRow(px, pz + 2, 0.0));
    }

    /**
     * The elevation at a world block: 0 before loading, otherwise the
     * bicubic value at the warped map position, which lies in [-0.05, 1].
     */
    function ElevationAtWorld(worldX: int, worldZ: int): (e: real)
      requires Valid()
      reads this, elev
      ensures !loaded ==> e == 0.0
      ensures loaded ==> OceanValue <= e <= 1.0
      ensures loaded ==> var c := Warp(worldX, worldZ, imageWidth, imageHeight); e == Bicubic(c.mapX, c.mapZ)
    {
      if !loaded then 0.0
      else
        var c := Warp(worldX, worldZ, imageWidth, imageHeight);
        Bicubic(c.mapX, c.mapZ)
    }

    /** A cell of the raster holding land (elevation above 0). */
    predicate IsLand(x: int, z: int)
      requires Valid()
      reads this, elev
    {
      InBounds(x, z) && elev[x, z] > 0.0
    }

    /**
     * Scans ring r around pixel (px, pz), in the order of the source's two
     * nested loops over dx and dz. Given the best squared distance over the
     * inner rings, it returns the best over rings 0 to r; only a strictly
     * closer land cell replaces the best.
     */
    method ScanRing(px: int, pz: int, ox: real, oz: real, r: nat, bound: real,
                    found0: bool, best0: real, ghost wx0: int, ghost wz0: int)
      returns (found: bool, best: real, ghost wx: int, ghost wz: int)
      requires Valid()
      requires NoCloserWithin(px, pz, ox, oz, r, best0)
      requires Best(px, pz, ox, oz, r, bound, found0, best0, wx0, wz0)
      ensures NoCloserWithin(px, pz, ox, oz, r + 1, best)
      ensures Best(px, pz, ox, oz, r, bound, found, best, wx, wz)
      ensures found0 ==> found
    {
      found, best, wx, wz := found0, best0, wx0, wz0;
      for dx := -(r as int) to r + 1
        invariant forall a, b :: Visited(a, b, r, dx, -(r as int)) && IsLand(px + a, pz + b) ==> best <= Dist2(a, b, ox, oz)
        invariant Best(px, pz, ox, oz, r, bound, found, best, wx, wz)
        invariant found0 ==> found
      {
        found, best, wx, wz := ScanColumn(px, pz, ox, oz, r, dx, bound, found, best, wx, wz);
        NextColumn(r, dx, dx + 1, -(r as int), r + 1);
      }
      assert forall a, b :: Ring(a, b) <= r ==> Visited(a, b, r, r + 1, -(r as int));
    }

    /** No land cell in rings 0 to r - 1 is closer than best. */
    ghost predicate NoCloserWithin(px: int, pz: int, ox: real, oz: real, r: int, best: real)
      requires Valid()
      reads this, elev
    {
      forall a, b :: Ring(a, b) < r && IsLand(px + a, pz + b) ==> best <= Dist2(a, b, ox, oz)
    }

    /**
     * The best-so-far state of the scan: when found, a witness land cell in
     * rings 0 to r at exactly the best squared distance, below the bound;
     * otherwise the best is still the bound.
     */
    ghost predicate Best(px: int, pz: int, ox: real, oz: real, r: int, bound: real,
                         found: bool, best: real, wx: int, wz: int)
      requires Valid()
      reads this, elev
    {
      (found ==> Ring(wx, wz) <= r && IsLand(px + wx, pz + wz) && best == Dist2(wx, wz, ox, oz) && best < bound)
      && (!found ==> best == bound)
    }

    /** The dz loop for one column dx of ring r; an inner cell is skipped, as are cells outside the raster. */
    method ScanColumn(px: int, pz: int, ox: real, oz: real, r: nat, dx: int, bound: real,
                      found0: bool, best0: real, ghost wx0: int, ghost wz0: int)
      returns (found: bool, best: real, ghost wx: int, ghost wz: int)
      requires Valid()
      requires -(r as int) <= dx <= r
      requires forall a, b :: Visited(a, b, r, dx, -(r as int)) && IsLand(px + a, pz + b) ==> best0 <= Dist2(a, b, ox, oz)
      requires Best(px, pz, ox, oz, r, bound, found0, best0, wx0, wz0)
      ensures forall a, b :: Visited(a, b, r, dx, r + 1) && IsLand(px + a, pz + b) ==> best <= Dist2(a, b, ox, oz)
      ensures Best(px, pz, ox, oz, r, bound, found, best, wx, wz)
      ensures found0 ==> found
    {
      found, best, wx, wz := found0, best0, wx0, wz0;
      for dz := -(r as int) to r + 1
        invariant forall a, b :: Visited(a, b, r, dx, dz) && IsLand(px + a, pz + b) ==> best <= Dist2(a, b, ox, oz)
        invariant Best(px, pz, ox, oz, r, bound, found, best, wx, wz)
        invariant found0 ==> found
      {
        NextCell(r, dx, dz);
        if r > 0 && AbsInt(dx) < r && AbsInt(dz) < r {
          // an inner cell, already scanned by an earlier ring
        } else {
          var nx, nz := px + dx, pz + dz;
          if nx < 0 || nz < 0 || nx >= imageWidth || nz >= imageHeight {
            // outside the raster
          } else if elev[nx, nz] > 0.0 {
            var d2 := Dist2(dx, dz, ox, oz);
            if d2 < best {
              best, found := d2, true;
              wx, wz := dx, dz;
            }
          }
        }
      }
    }

    /** Once (r - 1)^2 exceeds the best squared distance, no land cell in ring r or beyond is closer. */
    lemma OuterRingsFarther(px: int, pz: int, ox: real, oz: real, r: nat, best: real)
      requires Valid()
      requires 0.0 <= ox < 1.0 && 0.0 <= oz < 1.0
      requires best >= 0.0
      requires (if r - 1 > 0 then (r - 1) as real else 0.0) * (if r - 1 > 0 then (r - 1) as real else 0.0) > best
      ensures forall a, b :: Ring(a, b) >= r && IsLand(px + a, pz + b) ==> best <= Dist2(a, b, ox, oz)
    {
      forall a, b | Ring(a, b) >= r && IsLand(px + a, pz + b)
        ensures best <= Dist2(a, b, ox, oz)
      {
        RingLowerBound(a, b, r, ox, oz);
      }
    }

    /**
     * The result of the nearest-land search around pixel (px, pz): best is
     * at most the squared distance of every land cell within maxRadius
     * rings; when found it is the squared distance of one of them and below
     * the bound; otherwise it is the bound.
     */
    ghost predicate IsNearestLand(px: int, pz: int, ox: real, oz: real, maxRadius: int, found: bool, best: real)
      requires Valid()
      reads this, elev
    {
      (forall a, b :: Ring(a, b) <= maxRadius && IsLand(px + a, pz + b) ==> best <= Dist2(a, b, ox, oz))
      && (found ==> best < Bound(maxRadius) && exists a, b :: Ring(a, b) <= maxRadius && IsLand(px + a, pz + b) && best == Dist2(a, b, ox, oz))
      && (!found ==> best == Bound(maxRadius))
    }

    /** The search finds land exactly when some land cell within maxRadius rings is closer than maxRadius + 1. */
    lemma NearestLandFound(px: int, pz: int, ox: real, oz: real, maxRadius: int, found: bool, best: real)
      requires Valid()
      requires IsNearestLand(px, pz, ox, oz, maxRadius, found, best)
      ensures found <==> exists a, b :: Ring(a, b) <= maxRadius && IsLand(px + a, pz + b) && Dist2(a, b, ox, oz) < Bound(maxRadius)
    {
      if !found {
        forall a, b | Ring(a, b) <= maxRadius && IsLand(px + a, pz + b)
          ensures Dist2(a, b, ox, oz) >= Bound(maxRadius)
        {
        }
      }
    }

    /**
     * The squared distance from the sample point to the nearest land cell
     * within the square of half-width maxRadius around pixel (px, pz), if
     * one lies closer than maxRadius + 1. Rings are scanned outward and the
     * scan stops early once ring r's lower bound (r - 1)^2 exceeds the best
     * so far; the result is still the minimum over the whole square.
     */
    method NearestLandDist2(px: int, pz: int, ox: real, oz: real, maxRadius: int)
      returns (found: bool, best: real)
      requires Valid()
      requires 0.0 <= ox < 1.0 && 0.0 <= oz < 1.0
      ensures IsNearestLand(px, pz, ox, oz, maxRadius, found, best)
    {
      var bound := Bound(maxRadius);
      found, best := false, bound;
      ghost var wx, wz := 0, 0;
      var r := 0;
      while r <= maxRadius
        invariant NoCloserWithin(px, pz, ox, oz, r, best)
        invariant r > 0 ==> r <= maxRadius + 1
        invariant Best(px, pz, ox, oz, r - 1, bound, found, best, wx, wz)
        decreases maxRadius - r
      {
        var ringStart := if r - 1 > 0 then (r - 1) as real else 0.0;
        if found && ringStart * ringStart > best {
          OuterRingsFarther(px, pz, ox, oz, r, best);
          break;
        }
        found, best, wx, wz := ScanRing(px, pz, ox, oz, r, bound, found, best, wx, wz);
        r := r + 1;
      }
      SearchComplete(px, pz, ox, oz, maxRadius, r, found, best, wx, wz);
    }

    /** The inner rings, together with either the whole square or the rings the early exit skipped, cover the square. */
    lemma SearchComplete(px: int, pz: int, ox: real, oz: real, maxRadius: int, r: nat,
                         found: bool, best: real, wx: int, wz: int)
      requires Valid()
      requires NoCloserWithin(px, pz, ox, oz, r, best)
      requires r > maxRadius || forall a, b :: Ring(a, b) >= r && IsLand(px + a, pz + b) ==> best <= Dist2(a, b, ox, oz)
      requires r > 0 ==> r <= maxRadius + 1
      requires Best(px, pz, ox, oz, r - 1, Bound(maxRadius), found, best, wx, wz)
      ensures IsNearestLand(px, pz, ox, oz, maxRadius, found, best)
    {
    }

    /**
     * The warped pixel distance from a world block to the nearest land
     * cell, as its square: before loading, or when no land cell is closer
     * than maxRadius + 1, the result is not found and the square of
     * maxRadius + 1 (the source then returns maxRadius + 1).
     */
    method NearestLandDistanceSq(worldX: int, worldZ: int, maxRadius: int)
      returns (found: bool, dist2: real)
      requires Valid()
      ensures !loaded ==> !found && dist2 == Bound(maxRadius)
      ensures !found ==> dist2 == Bound(maxRadius)
      ensures found ==> dist2 < Bound(maxRadius)
      ensures loaded ==>
        var c := Warp(worldX, worldZ, imageWidth, imageHeight);
        var px, pz := Floor(c.mapX), Floor(c.mapZ);
        var ox, oz := c.mapX - px as real, c.mapZ - pz as real;
        IsNearestLand(px, pz, ox, oz, maxRadius, found, dist2)
    {
      if !loaded {
        return false, Bound(maxRadius);
      }
      var c := Warp(worldX, worldZ, imageWidth, imageHeight);
      var fx, fz := c.mapX, c.mapZ;
      var px, pz := Floor(fx), Floor(fz);
      var ox, oz := fx - px as real, fz - pz as real;
      found, dist2 := NearestLandDist2(px, pz, ox, oz, maxRadius);
    }
  }

  /** `(maxRadius + 1)^2`, the initial best squared distance. */
  function Bound(maxRadius: int): real {
    (maxRadius + 1) as real * (maxRadius + 1) as real
  }
}
