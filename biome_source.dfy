/**
 * Palette classification and biome selection (GotBiomeSource.java). A
 * sampled map colour selects a biome location: an exact palette colour
 * first, otherwise the palette entry at the smallest squared RGB distance,
 * ties going to the earliest entry. The biome source maps the location to
 * one of its registered biomes, or to its fallback biome.
 */
module BiomeSource {
  import opened Wrappers
  import opened JavaMath
  import opened Biomemap

  /** A namespaced resource location such as `got:north`. */
  datatype Location = Location(namespace: string, path: string)

  function Got(path: string): Location {
    Location("got", path)
  }

  /** One palette entry: a 24-bit colour and the biome painted with it. */
  datatype PaletteEntry = PaletteEntry(key: int, location: Location)

  /** The palette, in declaration order (the order ties are broken in). */
  const Palette: seq<PaletteEntry> := [
    PaletteEntry(0x949038, Got("north")),
    PaletteEntry(0xADA942, Got("barrowlands")),
    PaletteEntry(0x92B0AC, Got("stony_shore")),
    PaletteEntry(0x808F81, Got("north_hills")),
    PaletteEntry(0x2F4A33, Got("neck")),
    PaletteEntry(0x02450D, Got("ironwood")),
    PaletteEntry(0x047D17, Got("wolfswood")),
    PaletteEntry(0x00229D, Got("ocean")),
    PaletteEntry(0x110751, Got("deep_ocean")),
    PaletteEntry(0x2D6796, Got("river")),
    PaletteEntry(0x35A180, Got("neck_river")),
    PaletteEntry(0x4B91E6, Got("frozen_river")),
    PaletteEntry(0xBBCCCD, Got("frostfangs")),
    PaletteEntry(0xFFFFFF, Got("always_winter")),
    PaletteEntry(0xA5B7B9, Got("north_mountains"))
  ]

  /** No colour appears twice, as in a map keyed by colour. */
  predicate DistinctKeys(p: seq<PaletteEntry>) {
    forall i, j :: 0 <= i < j < |p| ==> p[i].key != p[j].key
  }

  predicate AllRgb24(p: seq<PaletteEntry>) {
    forall i :: 0 <= i < |p| ==> IsRgb24(p[i].key)
  }

  /** The palette has 15 distinct 24-bit colours. */
  lemma PaletteWellFormed()
    ensures |Palette| == 15 && DistinctKeys(Palette) && AllRgb24(Palette)
  {
  }

  /** The squared RGB distance between two colours, channel by channel. */
  function ColourDistance(a: int, b: int): (d: int)
    ensures 0 <= d <= 3 * 255 * 255
  {
    var dr := ByteAt(a, 16) - ByteAt(b, 16);
    var dg := ByteAt(a, 8) - ByteAt(b, 8);
    var db := ByteAt(a, 0) - ByteAt(b, 0);
    SquareBelow(dr);
    SquareBelow(dg);
    SquareBelow(db);
    dr * dr + dg * dg + db * db
  }

  lemma SquareBelow(d: int)
    requires -255 <= d <= 255
    ensures 0 <= d * d <= 255 * 255
    ensures d != 0 ==> d * d > 0
  {
    var u := if d >= 0 then d else -d;
    assert d * d == u * u;
    MulMonotone(u, 255, u);
    MulMonotone(u, 255, 255);
    if u >= 1 {
      MulMonotone(1, u, u);
    }
  }

  lemma MulMonotone(x: int, y: int, k: int)
    requires x <= y && k >= 0
    ensures x * k <= y * k
  {
    assert y * k - x * k == (y - x) * k;
  }

  /** Two 24-bit colours are at distance 0 exactly when they are the same colour. */
  lemma ZeroDistanceSameColour(a: int, b: int)
    requires IsRgb24(a) && IsRgb24(b)
    ensures ColourDistance(a, b) == 0 <==> a == b
  {
    var dr := ByteAt(a, 16) - ByteAt(b, 16);
    var dg := ByteAt(a, 8) - ByteAt(b, 8);
    var db := ByteAt(a, 0) - ByteAt(b, 0);
    SquareBelow(dr);
    SquareBelow(dg);
    SquareBelow(db);
    ChannelsDetermineColour(a);
    ChannelsDetermineColour(b);
  }

  /** A 24-bit colour is its red, green and blue bytes. */
  lemma ChannelsDetermineColour(a: int)
    requires IsRgb24(a)
    ensures a == ByteAt(a, 16) * 65536 + ByteAt(a, 8) * 256 + ByteAt(a, 0)
  {
    assert Pow2(16) == 65536 && Pow2(8) == 256 && Pow2(0) == 1;
  }

  /** The palette's biome for a colour that is one of its keys (the first such entry). */
  function ExactMatch(p: seq<PaletteEntry>, color: int): (r: Option<Location>)
    ensures r.None? <==> forall i :: 0 <= i < |p| ==> p[i].key != color
    ensures r.Some? ==> exists i :: 0 <= i < |p| && p[i].key == color && p[i].location == r.value
  {
    if p == [] then None
    else if p[0].key == color then Some(p[0].location)
    else
      var r := ExactMatch(p[1..], color);
      assert r.Some? ==> exists i :: 1 <= i < |p| && p[i].key == color && p[i].location == r.value by {
        if r.Some? {
          var i :| 0 <= i < |p[1..]| && p[1..][i].key == color && p[1..][i].location == r.value;
          assert p[i + 1] == p[1..][i];
        }
      }
      r
  }

  /** With distinct keys, the exact match of entry i's colour is entry i's biome. */
  lemma ExactMatchOfKey(p: seq<PaletteEntry>, i: nat)
    requires DistinctKeys(p) && i < |p|
    ensures ExactMatch(p, p[i].key) == Some(p[i].location)
  {
    var r := ExactMatch(p, p[i].key);
    var k :| 0 <= k < |p| && p[k].key == p[i].key && p[k].location == r.value;
    assert k == i;
  }

  /**
   * The index of the first entry at the smallest distance from color among
   * the first n entries: its distance is at most every other's, and every
   * earlier entry is strictly farther.
   */
  function NearestPrefix(p: seq<PaletteEntry>, color: int, n: nat): (k: nat)
    requires 1 <= n <= |p|
    ensures k < n
    ensures forall j :: 0 <= j < n ==> ColourDistance(p[k].key, color) <= ColourDistance(p[j].key, color)
    ensures forall j :: 0 <= j < k ==> ColourDistance(p[j].key, color) > ColourDistance(p[k].key, color)
  {
    if n == 1 then 0
    else
      var k := NearestPrefix(p, color, n - 1);
      if ColourDistance(p[n - 1].key, color) < ColourDistance(p[k].key, color) then n - 1 else k
  }

  /** The biome a colour is classified as: its exact palette entry, else the first nearest entry; None only for an empty palette. */
  function ClosestMatch(p: seq<PaletteEntry>, color: int): Option<Location> {
    match ExactMatch(p, color)
    case Some(l) => Some(l)
    case None => if p == [] then None else Some(p[NearestPrefix(p, color, |p|)].location)
  }

  /**
   * The exact-hit lookup followed by the linear scan over the palette
   * that keeps the first entry at the smallest distance (the running best
   * starts at Integer.MAX_VALUE and is replaced only by a strictly smaller
   * distance).
   */
  method ClosestPaletteMatch(p: seq<PaletteEntry>, color: int) returns (loc: Option<Location>)
    ensures loc == ClosestMatch(p, color)
  {
    var exact := ExactMatch(p, color);
    if exact.Some? {
      return exact;
    }
    var r := ByteAt(color, 16);
    var g := ByteAt(color, 8);
    var b := ByteAt(color, 0);
    var bestDist := IntMax;
    var bestLoc: Option<Location> := None;
    ghost var bestIdx := 0;
    for i := 0 to |p|
      invariant i == 0 ==> bestLoc == None && bestDist == IntMax
      invariant i > 0 ==> (bestIdx == NearestPrefix(p, color, i)
        && bestLoc == Some(p[bestIdx].location) && bestDist == ColourDistance(p[bestIdx].key, color))
    {
      var c := p[i].key;
      var dr := ByteAt(c, 16) - r;
      var dg := ByteAt(c, 8) - g;
      var db := ByteAt(c, 0) - b;
      var dist := dr * dr + dg * dg + db * db;
      assert dist == ColourDistance(c, color);
      if dist < bestDist {
        bestDist := dist;
        bestLoc := Some(p[i].location);
        bestIdx := i;
      }
    }
    loc := bestLoc;
  }

  /** The match is absent exactly when the palette is empty. */
  lemma ClosestMatchNoneIffEmpty(p: seq<PaletteEntry>, color: int)
    ensures ClosestMatch(p, color).None? <==> p == []
  {
  }

  /** A match is always the biome of some palette entry. */
  lemma ClosestMatchInPalette(p: seq<PaletteEntry>, color: int)
    requires ClosestMatch(p, color).Some?
    ensures exists i :: 0 <= i < |p| && p[i].location == ClosestMatch(p, color).value
  {
    if ExactMatch(p, color).None? {
      var k := NearestPrefix(p, color, |p|);
      assert p[k].location == ClosestMatch(p, color).value;
    }
  }

  /** A colour that is a palette key is classified as that key's biome. */
  lemma ClosestMatchExact(p: seq<PaletteEntry>, i: nat)
    requires DistinctKeys(p) && i < |p|
    ensures ClosestMatch(p, p[i].key) == Some(p[i].location)
  {
    ExactMatchOfKey(p, i);
  }

  /**
   * Any other colour is classified as the biome of an entry k at the
   * smallest distance, with every earlier entry strictly farther.
   */
  lemma ClosestMatchNearest(p: seq<PaletteEntry>, color: int)
    requires p != [] && forall i :: 0 <= i < |p| ==> p[i].key != color
    ensures exists k :: (0 <= k < |p| && ClosestMatch(p, color) == Some(p[k].location)
      && (forall j :: 0 <= j < |p| ==> ColourDistance(p[k].key, color) <= ColourDistance(p[j].key, color))
      && (forall j :: 0 <= j < k ==> ColourDistance(p[j].key, color) > ColourDistance(p[k].key, color)))
  {
    var k := NearestPrefix(p, color, |p|);
    assert ClosestMatch(p, color) == Some(p[k].location);
  }

  /**
   * With distinct 24-bit keys, the scan alone finds entry i for entry i's
   * colour, so the exact-hit shortcut never changes the answer.
   */
  lemma ScanAgreesWithShortcut(p: seq<PaletteEntry>, i: nat)
    requires DistinctKeys(p) && AllRgb24(p) && i < |p|
    ensures NearestPrefix(p, p[i].key, |p|) == i
  {
    var color := p[i].key;
    var k := NearestPrefix(p, color, |p|);
    ZeroDistanceSameColour(color, color);
    assert ColourDistance(p[k].key, color) == 0;
    ZeroDistanceSameColour(p[k].key, color);
  }

  /** The off-map colour is the palette's deep-ocean colour. */
  lemma OffMapIsDeepOcean()
    ensures ClosestMatch(Palette, DeepOcean) == Some(Got("deep_ocean"))
  {
    PaletteWellFormed();
    assert Palette[8].key == DeepOcean;
    ClosestMatchExact(Palette, 8);
  }

  /** A registered biome: its identity and its key, if it has one. */
  datatype Holder = Holder(id: int, key: Option<Location>)

  /**
   * The location-to-biome table built by putting each keyed biome in list
   * order: a later biome with the same key replaces an earlier one.
   */
  function LocationMap(biomes: seq<Holder>): map<Location, Holder> {
    if biomes == [] then map[]
    else
      var m := LocationMap(biomes[..|biomes| - 1]);
      var h := biomes[|biomes| - 1];
      if h.key.Some? then m[h.key.value := h] else m
  }

  /**
   * A location is in the table exactly when some biome has that key, and
   * it maps to the last biome with that key.
   */
  lemma {:induction false} LocationMapContents(biomes: seq<Holder>, l: Location)
    ensures l in LocationMap(biomes) <==> exists i :: 0 <= i < |biomes| && biomes[i].key == Some(l)
    ensures l in LocationMap(biomes) ==> exists i :: (0 <= i < |biomes| && biomes[i] == LocationMap(biomes)[l]
      && biomes[i].key == Some(l) && forall j :: i < j < |biomes| ==> biomes[j].key != Some(l))
  {
    if biomes != [] {
      var n := |biomes| - 1;
      var prefix := biomes[..n];
      var h := biomes[n];
      LocationMapContents(prefix, l);
      if h.key == Some(l) {
        assert LocationMap(biomes)[l] == h;
      } else {
        assert l in LocationMap(biomes) <==> l in LocationMap(prefix);
        forall i | 0 <= i < n
          ensures prefix[i] == biomes[i]
        {
        }
        if l in LocationMap(prefix) {
          var i :| 0 <= i < |prefix| && prefix[i] == LocationMap(prefix)[l]
            && prefix[i].key == Some(l) && forall j :: i < j < |prefix| ==> prefix[j].key != Some(l);
          assert LocationMap(biomes)[l] == LocationMap(prefix)[l];
          assert biomes[i] == LocationMap(biomes)[l];
        }
      }
    }
  }

  /** The constructor's loop filling the location table from the biome list. */
  method BuildLocationMap(biomes: seq<Holder>) returns (m: map<Location, Holder>)
    ensures m == LocationMap(biomes)
  {
    m := map[];
    for i := 0 to |biomes|
      invariant m == LocationMap(biomes[..i])
    {
      assert biomes[..i + 1][..i] == biomes[..i];
      var h := biomes[i];
      if h.key.Some? {
        m := m[h.key.value := h];
      }
    }
    assert biomes[..|biomes|] == biomes;
  }

  /** `got:north` if registered, else `got:ocean`, else the first biome; none for an empty list. */
  function ChooseFallback(m: map<Location, Holder>, biomes: seq<Holder>): Option<Holder> {
    if Got("north") in m then Some(m[Got("north")])
    else if Got("ocean") in m then Some(m[Got("ocean")])
    else if biomes != [] then Some(biomes[0])
    else None
  }

  /** The biome source built from a biome list. */
  datatype GotBiomeSource = GotBiomeSource(biomes: seq<Holder>, locationToHolder: map<Location, Holder>, fallback: Holder)

  /** Every biome the source can return is one of its registered biomes. */
  predicate ValidSource(s: GotBiomeSource) {
    s.fallback in s.biomes
    && forall l :: l in s.locationToHolder ==> s.locationToHolder[l] in s.biomes
  }

  /** The fallback exists exactly when the list is non-empty, and is then one of the listed biomes. */
  lemma FallbackChoice(biomes: seq<Holder>)
    ensures ChooseFallback(LocationMap(biomes), biomes).None? <==> biomes == []
    ensures ChooseFallback(LocationMap(biomes), biomes).Some? ==> ChooseFallback(LocationMap(biomes), biomes).value in biomes
  {
    LocationMapContents(biomes, Got("north"));
    LocationMapContents(biomes, Got("ocean"));
  }

  /** Every value of the location table is one of the listed biomes. */
  lemma LocationMapValues(biomes: seq<Holder>)
    ensures forall l :: l in LocationMap(biomes) ==> LocationMap(biomes)[l] in biomes
  {
    forall l | l in LocationMap(biomes)
      ensures LocationMap(biomes)[l] in biomes
    {
      LocationMapContents(biomes, l);
    }
  }

  /**
   * The constructor: builds the location table and picks the fallback,
   * failing (the source's null check) exactly when the biome list is empty.
   */
  method Create(biomes: seq<Holder>) returns (r: Result<GotBiomeSource, string>)
    ensures r.Failure? <==> biomes == []
    ensures r.Success? ==> (r.value.biomes == biomes && r.value.locationToHolder == LocationMap(biomes)
      && ChooseFallback(LocationMap(biomes), biomes) == Some(r.value.fallback))
    ensures r.Success? ==> ValidSource(r.value)
  {
    var m := BuildLocationMap(biomes);
    var fb := ChooseFallback(m, biomes);
    FallbackChoice(biomes);
    LocationMapValues(biomes);
    if fb.None? {
      return Failure("GotBiomeSource: biome list is empty!");
    }
    return Success(GotBiomeSource(biomes, m, fb.value));
  }

  /** The registered biome for a classification result, or the fallback. */
  function Resolve(s: GotBiomeSource, loc: Option<Location>): Holder {
    if loc.Some? && loc.value in s.locationToHolder then s.locationToHolder[loc.value] else s.fallback
  }

  /**
   * The biome at biome-noise coordinates (x, y, z): the world block is
   * (x << 2, z << 2) with Java's int wrap-around, y is not used, and the
   * painted colour there is classified against the palette.
   */
  function NoiseBiome(s: GotBiomeSource, loader: BiomemapLoader, x: int, y: int, z: int): (h: Holder)
    requires ValidSource(s) && loader.Valid()
    reads loader, loader.pixels
    ensures h in s.biomes
  {
    var color := loader.ColorAtWorld(Wrap32(x * 4), Wrap32(z * 4));
    Resolve(s, ClosestMatch(Palette, color))
  }

  /** The biome does not depend on the height coordinate. */
  lemma NoiseBiomeIgnoresHeight(s: GotBiomeSource, loader: BiomemapLoader, x: int, y1: int, y2: int, z: int)
    requires ValidSource(s) && loader.Valid()
    ensures NoiseBiome(s, loader, x, y1, z) == NoiseBiome(s, loader, x, y2, z)
  {
  }

  /** Before the map is loaded every column is deep ocean when that biome is registered, else the fallback. */
  lemma NoiseBiomeBeforeLoad(s: GotBiomeSource, loader: BiomemapLoader, x: int, y: int, z: int)
    requires ValidSource(s) && loader.Valid() && !loader.loaded
    ensures Got("deep_ocean") in s.locationToHolder ==> NoiseBiome(s, loader, x, y, z) == s.locationToHolder[Got("deep_ocean")]
    ensures Got("deep_ocean") !in s.locationToHolder ==> NoiseBiome(s, loader, x, y, z) == s.fallback
  {
    OffMapIsDeepOcean();
  }
}
