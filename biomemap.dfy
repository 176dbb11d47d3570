/**
 * The biome-paint raster (BiomemapLoader.java): the painted biome map as
 * 24-bit colours, looked up through the same warp as the elevation raster.
 */
module Biomemap {
  import opened JavaMath
  import opened MapWarp

  /** The colour returned outside the map and before loading: the deep-ocean paint. */
  const DeepOcean: int := 0x110751

  /** A colour with the alpha byte stripped. */
  predicate IsRgb24(c: int) {
    0 <= c < 0x100_0000
  }

  /** A pixel position on the map. */
  datatype Pixel = Pixel(x: int, z: int)

  /** The painted map and its load state. */
  class BiomemapLoader {
    var imageWidth: int
    var imageHeight: int
    var pixels: array2<int>
    var loaded: bool

    /** The dimensions match the raster, every stored colour is 24-bit, and a loaded map is not empty. */
    ghost predicate Valid()
      reads this, pixels
    {
      pixels.Length0 == imageWidth && pixels.Length1 == imageHeight
      && (forall i, j :: 0 <= i < imageWidth && 0 <= j < imageHeight ==> IsRgb24(pixels[i, j]))
      && (loaded ==> imageWidth >= 1 && imageHeight >= 1)
    }

    constructor ()
      ensures Valid() && !loaded
    {
      imageWidth := 0;
      imageHeight := 0;
      pixels := new int[0, 0];
      loaded := false;
    }

    /**
     * Stores every pixel of the decoded image (its `getRGB` words, at least
     * one pixel as every decoded image has) with the alpha byte stripped,
     * and marks the map loaded.
     */
    method Load(img: array2<int>)
      requires img.Length0 >= 1 && img.Length1 >= 1
      modifies this
      ensures Valid() && loaded
      ensures imageWidth == img.Length0 && imageHeight == img.Length1
      ensures fresh(pixels)
      ensures forall i, j :: 0 <= i < imageWidth && 0 <= j < imageHeight ==> pixels[i, j] == Low24(img[i, j])
    {
      var w := img.Length0;
      var h := img.Length1;
      var p := new int[w, h];
      for x := 0 to w
        invariant forall i, j :: 0 <= i < x && 0 <= j < h ==> p[i, j] == Low24(img[i, j])
      {
        for z := 0 to h
          invariant forall i, j :: 0 <= i < x && 0 <= j < h ==> p[i, j] == Low24(img[i, j])
          invariant forall j :: 0 <= j < z ==> p[x, j] == Low24(img[x, j])
        {
          p[x, z] := Low24(img[x, z]);
        }
      }
      imageWidth, imageHeight := w, h;
      pixels := p;
      loaded := true;
    }

    predicate InBounds(p: Pixel)
      reads this
    {
      0 <= p.x < imageWidth && 0 <= p.z < imageHeight
    }

    /** The warped map position of a world block, rounded to the nearest pixel. */
    function RoundedWarp(worldX: int, worldZ: int): Pixel
      reads this
    {
      var c := Warp(worldX, worldZ, imageWidth, imageHeight);
      Pixel(Round(c.mapX), Round(c.mapZ))
    }

    /**
     * The colour painted at a world block: the deep-ocean colour before
     * loading or when the rounded warped pixel is off the map, otherwise
     * the stored colour of that pixel.
     */
    function ColorAtWorld(worldX: int, worldZ: int): (c: int)
      requires Valid()
      reads this, pixels
      ensures IsRgb24(c)
      ensures !loaded || !InBounds(RoundedWarp(worldX, worldZ)) ==> c == DeepOcean
      ensures loaded && InBounds(RoundedWarp(worldX, worldZ)) ==>
        c == pixels[RoundedWarp(worldX, worldZ).x, RoundedWarp(worldX, worldZ).z]
    {
      if !loaded then DeepOcean
      else
        var p := RoundedWarp(worldX, worldZ);
        if !InBounds(p) then DeepOcean else pixels[p.x, p.z]
    }

    /**
     * The stored colour at a pixel with no warp, both coordinates clamped
     * onto the map first; the deep-ocean colour before loading. Every
     * coordinate reads a pixel of the map, and one already on the map reads
     * its own pixel.
     */
    function RawPixel(p: Pixel): (c: int)
      requires Valid()
      reads this, pixels
      ensures IsRgb24(c)
      ensures !loaded ==> c == DeepOcean
      ensures loaded ==> exists i, j :: 0 <= i < imageWidth && 0 <= j < imageHeight && c == pixels[i, j]
      ensures loaded && InBounds(p) ==> c == pixels[p.x, p.z]
      ensures loaded ==> c == pixels[ClampInt(p.x, 0, imageWidth - 1), ClampInt(p.z, 0, imageHeight - 1)]
    {
      if !loaded then DeepOcean
      else
        var x := ClampInt(p.x, 0, imageWidth - 1);
        var z := ClampInt(p.z, 0, imageHeight - 1);
        pixels[x, z]
    }

    /**
     * The pixel that ColorAtWorld samples for a world block, clamped onto
     * the map; (0, 0) before loading.
     */
    function WarpedPixel(worldX: int, worldZ: int): (p: Pixel)
      requires Valid()
      reads this, pixels
      ensures !loaded ==> p == Pixel(0, 0)
      ensures loaded ==> InBounds(p)
      ensures loaded && InBounds(RoundedWarp(worldX, worldZ)) ==> p == RoundedWarp(worldX, worldZ)
      ensures loaded ==> p.x == ClampInt(RoundedWarp(worldX, worldZ).x, 0, imageWidth - 1)
      ensures loaded ==> p.z == ClampInt(RoundedWarp(worldX, worldZ).z, 0, imageHeight - 1)
    {
      if !loaded then Pixel(0, 0)
      else
        var q := RoundedWarp(worldX, worldZ);
        Pixel(ClampInt(q.x, 0, imageWidth - 1), ClampInt(q.z, 0, imageHeight - 1))
    }

    /** Whenever the rounded warped pixel is on the map, the warped lookup is the raw lookup of the warped pixel. */
    lemma ColorIsRawOfWarped(worldX: int, worldZ: int)
      requires Valid() && loaded
      requires InBounds(RoundedWarp(worldX, worldZ))
      ensures ColorAtWorld(worldX, worldZ) == RawPixel(WarpedPixel(worldX, worldZ))
    {
    }

    /**
     * A coordinate off one edge of the map reads the same colour as the
     * pixel on that edge: past the left or top it reads column or row 0,
     * past the right or bottom the last column or row.
     */
    lemma RawPixelEdges(p: Pixel)
      requires Valid() && loaded
      ensures p.x < 0 ==> RawPixel(p) == RawPixel(Pixel(0, p.z))
      ensures p.x >= imageWidth ==> RawPixel(p) == RawPixel(Pixel(imageWidth - 1, p.z))
      ensures p.z < 0 ==> RawPixel(p) == RawPixel(Pixel(p.x, 0))
      ensures p.z >= imageHeight ==> RawPixel(p) == RawPixel(Pixel(p.x, imageHeight - 1))
    {
    }

    /** On a map painted in one colour, raw lookups give that colour and warped lookups give it or the deep-ocean colour. */
    lemma UniformMap(colour: int, p: Pixel, worldX: int, worldZ: int)
      requires Valid() && loaded
      requires forall i, j :: 0 <= i < imageWidth && 0 <= j < imageHeight ==> pixels[i, j] == colour
      ensures RawPixel(p) == colour
      ensures ColorAtWorld(worldX, worldZ) == colour || ColorAtWorld(worldX, worldZ) == DeepOcean
    {
    }
  }
}
