/**
 * The colour table and the unwarped biome lookup (BiomeMapLoader.java).
 * The table maps `#RRGGBB` keys to a biome id and a terrain modifier
 * (4.0 when absent); world blocks map to pixels at 10 blocks per pixel
 * with Java's truncating division.
 */
module BiomeColorMap {
  import opened Wrappers
  import opened JavaMath
  import Heightmap

  /** World blocks per pixel for this lookup (not the warp's 56). */
  const MapScale: int := 10
  /** The terrain modifier of an entry without one, and of every fallback. */
  const DefaultTerrainModifier: real := 4.0

  /** One `"#RRGGBB": { "biome": ..., "terrain_modifier": ... }` entry of the colour file. */
  datatype ColourEntry = ColourEntry(key: string, biome: string, modifier: Option<real>)

  /** Why loading the colour file failed; every case surfaces as the same runtime exception. */
  datatype LoadError =
    | NullDocument
    | InvalidKey(key: string)
    | BadNumber(key: string)

  /** The value of one hexadecimal digit, either case. */
  function HexDigitValue(c: char): (d: Option<int>)
    ensures d.Some? ==> 0 <= d.value < 16
  {
    if '0' <= c <= '9' then Some(c as int - '0' as int)
    else if 'a' <= c <= 'f' then Some(c as int - 'a' as int + 10)
    else if 'A' <= c <= 'F' then Some(c as int - 'A' as int + 10)
    else None
  }

  function Pow16(k: nat): (p: nat)
    ensures p >= 1
  {
    if k == 0 then 1 else 16 * Pow16(k - 1)
  }

  /** Every character of s is a hexadecimal digit. */
  predicate AllHexDigits(s: string) {
    forall i :: 0 <= i < |s| ==> HexDigitValue(s[i]).Some?
  }

  /** The value of a string of hexadecimal digits, most significant first; none if any character is not a digit. */
  function ParseHexDigits(s: string): (r: Option<int>)
    ensures r.Some? <==> AllHexDigits(s)
    ensures r.Some? ==> 0 <= r.value < Pow16(|s|)
  {
    if s == [] then Some(0)
    else
      var front := ParseHexDigits(s[..|s| - 1]);
      var last := HexDigitValue(s[|s| - 1]);
      if front.None? || last.None? then None
      else
        DigitAppendBound(front.value, last.value, Pow16(|s| - 1));
        Some(front.value * 16 + last.value)
  }

  lemma DigitAppendBound(a: int, d: int, p: int)
    requires 0 <= a < p && 0 <= d < 16
    ensures 0 <= a * 16 + d < 16 * p
  {
  }

  /** The value of digits v after a sign character. */
  function Signed(sign: char, v: int): int {
    if sign == '-' then -v else v
  }

  /**
   * `Integer.parseInt(s, 16)`: an optional `+` or `-` sign followed by at
   * least one hexadecimal digit, and a result that fits an int.
   */
  function ParseInt16(s: string): (r: Option<int>)
    ensures r.Some? ==> IsInt32(r.value)
    ensures r.Some? ==> |s| >= 1 && forall i :: (if s[0] == '+' || s[0] == '-' then 1 else 0) <= i < |s| ==> HexDigitValue(s[i]).Some?
    ensures r.Some? && (s[0] == '+' || s[0] == '-') ==> |s| >= 2
    ensures |s| >= 1 && s[0] != '-' && s[0] != '+' ==>
      (r.Some? <==> AllHexDigits(s) && IsInt32(ParseHexDigits(s).value))
      && (r.Some? ==> r.value == ParseHexDigits(s).value)
    ensures |s| >= 2 && (s[0] == '-' || s[0] == '+') ==>
      (r.Some? <==> AllHexDigits(s[1..]) && IsInt32(Signed(s[0], ParseHexDigits(s[1..]).value)))
      && (r.Some? ==> r.value == Signed(s[0], ParseHexDigits(s[1..]).value))
    ensures r.Some? && |s| >= 1 && s[0] != '-' && s[0] != '+' ==> 0 <= r.value < Pow16(|s|)
    ensures r.Some? && |s| >= 1 && (s[0] == '-' || s[0] == '+') ==> -(Pow16(|s| - 1) as int) < r.value < Pow16(|s| - 1)
  {
    if |s| == 0 then None
    else if s[0] == '-' || s[0] == '+' then
      if |s| == 1 then None
      else
        var v := ParseHexDigits(s[1..]);
        if v.None? then None
        else
          var n := Signed(s[0], v.value);
          if IsInt32(n) then Some(n) else None
    else
      var v := ParseHexDigits(s);
      if v.Some? && IsInt32(v.value) then v else None
  }

  /**
   * A colour key: it must start with `#` and be seven characters long, and
   * the six characters after `#` must parse as a base-16 int (a leading
   * sign included). Accepted keys lie in [-0xFFFFF, 0xFFFFFF].
   */
  function ParseKey(hex: string): (r: Result<int, LoadError>)
    ensures !(|hex| == 7 && hex[0] == '#') ==> r == Failure(InvalidKey(hex))
    ensures r.Success? ==> |hex| == 7 && hex[0] == '#'
    ensures |hex| == 7 && hex[0] == '#' ==>
      (r.Failure? <==> ParseInt16(hex[1..]).None?)
      && (r.Failure? ==> r.error == BadNumber(hex))
      && (r.Success? ==> r.value == ParseInt16(hex[1..]).value)
    ensures r.Success? ==> -0xF_FFFF <= r.value <= 0xFF_FFFF
  {
    if !(|hex| > 0 && hex[0] == '#') || |hex| != 7 then Failure(InvalidKey(hex))
    else
      var digits := hex[1..];
      assert |digits| == 6;
      assert Pow16(5) == 0x10_0000 && Pow16(6) == 0x100_0000;
      var v := ParseInt16(digits);
      if v.None? then Failure(BadNumber(hex)) else Success(v.value)
  }

  /** `#` followed by six hexadecimal digits, in either case, is always a valid key, with the digits' value. */
  lemma HexKeyAccepted(hex: string)
    requires |hex| == 7 && hex[0] == '#' && AllHexDigits(hex[1..])
    ensures ParseKey(hex) == Success(ParseHexDigits(hex[1..]).value)
    ensures 0 <= ParseKey(hex).value <= 0xFF_FFFF
  {
    assert HexDigitValue(hex[1..][0]).Some?;
    assert Pow16(6) == 0x100_0000;
  }

  /**
   * A sign is accepted after `#`: `#` followed by `+` or `-` and five
   * hexadecimal digits is a valid key, whose value is the digits' value
   * with that sign.
   */
  lemma SignedKeyAccepted(sign: char, digits: string)
    requires sign == '+' || sign == '-'
    requires |digits| == 5 && AllHexDigits(digits)
    ensures ParseKey("#" + [sign] + digits)
      == Success(if sign == '-' then -ParseHexDigits(digits).value else ParseHexDigits(digits).value)
  {
    var hex := "#" + [sign] + digits;
    assert hex[1..] == [sign] + digits;
    assert hex[1..][1..] == digits;
    assert Pow16(5) == 0x10_0000;
  }

  /** The upper-case hexadecimal digit for 0 <= d < 16. */
  function HexChar(d: int): (c: char)
    requires 0 <= d < 16
    ensures HexDigitValue(c) == Some(d)
    ensures '0' <= c <= '9' || 'A' <= c <= 'F'
  {
    if d < 10 then ('0' as int + d) as char else ('A' as int + d - 10) as char
  }

  /** The k low hexadecimal digits of n >= 0, most significant first, zero-padded (`%0kX`). */
  function HexString(n: int, k: nat): (s: string)
    requires n >= 0
    ensures |s| == k
    ensures forall i :: 0 <= i < k ==> '0' <= s[i] <= '9' || 'A' <= s[i] <= 'F'
  {
    if k == 0 then "" else HexString(n / 16, k - 1) + [HexChar(n % 16)]
  }

  /** The canonical key of a 24-bit colour: `#` and six upper-case digits. */
  function FormatKey(rgb: int): string
    requires 0 <= rgb < 0x100_0000
  {
    "#" + HexString(rgb, 6)
  }

  /** Reading back k digits written for n < 16^k gives n. */
  lemma {:induction false} HexStringRoundTrip(n: int, k: nat)
    requires 0 <= n < Pow16(k)
    ensures ParseHexDigits(HexString(n, k)) == Some(n)
  {
    if k > 0 {
      var s := HexString(n, k);
      DivBelow(n, Pow16(k - 1));
      HexStringRoundTrip(n / 16, k - 1);
      assert s[..|s| - 1] == HexString(n / 16, k - 1);
      assert HexDigitValue(s[|s| - 1]) == Some(n % 16);
    }
  }

  lemma DivBelow(n: int, p: int)
    requires 0 <= n < 16 * p
    ensures n / 16 < p
  {
  }

  /** Every 24-bit colour written as its canonical key parses back to itself. */
  lemma FormatKeyRoundTrip(rgb: int)
    requires 0 <= rgb < 0x100_0000
    ensures ParseKey(FormatKey(rgb)) == Success(rgb)
  {
    var hex := FormatKey(rgb);
    assert Pow16(6) == 0x100_0000;
    HexStringRoundTrip(rgb, 6);
    assert hex[1..] == HexString(rgb, 6);
    assert hex[1] == HexString(rgb, 6)[0];
  }

  /** The entry's terrain modifier, or the default when it gives none. */
  function ModifierOf(e: ColourEntry): (m: real)
    ensures e.modifier.None? ==> m == DefaultTerrainModifier
    ensures e.modifier.Some? ==> m == e.modifier.value
  {
    if e.modifier.Some? then e.modifier.value else DefaultTerrainModifier
  }

  predicate AllKeysValid(es: seq<ColourEntry>) {
    forall i :: 0 <= i < |es| ==> ParseKey(es[i].key).Success?
  }

  /** The two tables, keyed by colour. */
  datatype Tables = Tables(biome: map<int, string>, modifier: map<int, real>)

  /** The tables built by putting the entries in order: a later entry for the same colour replaces an earlier one. */
  function ColourTables(es: seq<ColourEntry>): (t: Tables)
    requires AllKeysValid(es)
  {
    if es == [] then Tables(map[], map[])
    else
      var t := ColourTables(es[..|es| - 1]);
      var e := es[|es| - 1];
      var rgb := ParseKey(e.key).value;
      Tables(t.biome[rgb := e.biome], t.modifier[rgb := ModifierOf(e)])
  }

  lemma AllKeysValidPrefix(es: seq<ColourEntry>, n: nat)
    requires AllKeysValid(es) && n <= |es|
    ensures AllKeysValid(es[..n])
  {
    assert forall i :: 0 <= i < n ==> es[..n][i] == es[i];
  }

  lemma AllKeysValidSnoc(es: seq<ColourEntry>, i: int)
    requires 0 <= i < |es| && AllKeysValid(es[..i]) && ParseKey(es[i].key).Success?
    ensures AllKeysValid(es[..i + 1])
  {
    assert forall j :: 0 <= j < i ==> es[..i + 1][j] == es[..i][j];
  }

  /** The biome table and the modifier table always hold the same colours. */
  lemma {:induction false} ColourTablesKeys(es: seq<ColourEntry>)
    requires AllKeysValid(es)
    ensures ColourTables(es).biome.Keys == ColourTables(es).modifier.Keys
  {
    if es != [] {
      AllKeysValidPrefix(es, |es| - 1);
      ColourTablesKeys(es[..|es| - 1]);
    }
  }

  /** The tables hold a colour exactly when some entry has that colour as its key. */
  lemma {:induction false} ColourTablesMembership(es: seq<ColourEntry>, rgb: int)
    requires AllKeysValid(es)
    ensures rgb in ColourTables(es).biome <==> exists i :: 0 <= i < |es| && ParseKey(es[i].key) == Success(rgb)
  {
    if es != [] {
      var n := |es| - 1;
      AllKeysValidPrefix(es, n);
      ColourTablesMembership(es[..n], rgb);
      assert forall i :: 0 <= i < n ==> es[..n][i] == es[i];
    }
  }

  /** Last entry wins: a colour holds the biome and modifier of the last entry keyed by it. */
  lemma {:induction false} ColourTablesLastWins(es: seq<ColourEntry>, i: int, rgb: int)
    requires AllKeysValid(es)
    requires 0 <= i < |es| && ParseKey(es[i].key) == Success(rgb)
    requires forall j :: i < j < |es| ==> ParseKey(es[j].key) != Success(rgb)
    ensures rgb in ColourTables(es).biome && rgb in ColourTables(es).modifier
    ensures ColourTables(es).biome[rgb] == es[i].biome
    ensures ColourTables(es).modifier[rgb] == ModifierOf(es[i])
  {
    var n := |es| - 1;
    if i < n {
      AllKeysValidPrefix(es, n);
      var prefix := es[..n];
      assert prefix[i] == es[i];
      assert forall j :: i < j < n ==> prefix[j] == es[j];
      ColourTablesLastWins(prefix, i, rgb);
    }
  }

  /** The index of the first entry whose key is rejected, if any: every earlier key is accepted. */
  function FirstInvalid(es: seq<ColourEntry>): (i: nat)
    ensures i <= |es|
    ensures AllKeysValid(es[..i])
    ensures forall j :: 0 <= j < i ==> ParseKey(es[j].key).Success?
    ensures i < |es| ==> ParseKey(es[i].key).Failure?
    ensures i == |es| <==> AllKeysValid(es)
  {
    if es == [] then 0
    else if ParseKey(es[0].key).Failure? then 0
    else
      var k := FirstInvalid(es[1..]);
      assert es[..k + 1] == [es[0]] + es[1..][..k];
      k + 1
  }

  /**
   * Puts the entries into fresh tables in document order, stopping at the
   * first rejected key: returns the tables built so far and that key's
   * index (the entry count when every key is accepted).
   */
  method ReadEntries(es: seq<ColourEntry>) returns (t: Tables, stop: nat)
    ensures stop == FirstInvalid(es)
    ensures t == ColourTables(es[..stop])
  {
    var biome: map<int, string> := map[];
    var modifier: map<int, real> := map[];
    ghost var last := FirstInvalid(es);
    for i := 0 to |es|
      invariant i <= last
      invariant AllKeysValid(es[..i])
      invariant Tables(biome, modifier) == ColourTables(es[..i])
    {
      var e := es[i];
      var parsed := ParseKey(e.key);
      if parsed.Failure? {
        return Tables(biome, modifier), i;
      }
      var rgb := parsed.value;
      var terrainModifier := ModifierOf(e);
      AllKeysValidSnoc(es, i);
      assert es[..i + 1][..i] == es[..i];
      biome := biome[rgb := e.biome];
      modifier := modifier[rgb := terrainModifier];
    }
    assert es[..|es|] == es;
    return Tables(biome, modifier), |es|;
  }

  /** A key the table holds for a negative number (a signed key) never matches a stripped pixel colour. */
  lemma SignedKeyNeverMatches(rgb: int, pixel: int)
    requires rgb < 0
    ensures Low24(pixel) != rgb
  {
  }

  /** The loader's static state: the image, the two tables and the load flag. */
  class BiomeMapLoader {
    var biomeMap: array2<int>
    var hasMap: bool
    var width: int
    var height: int
    var colorToBiome: map<int, string>
    var colorToModifier: map<int, real>
    var loaded: bool

    /** A present image has the recorded size, and the two tables have the same colours. */
    ghost predicate Valid()
      reads this
    {
      (hasMap ==> biomeMap.Length0 == width && biomeMap.Length1 == height)
      && width >= 0 && height >= 0
      && colorToBiome.Keys == colorToModifier.Keys
    }

    constructor ()
      ensures Valid() && !loaded && !hasMap
      ensures colorToBiome == map[] && colorToModifier == map[]
    {
      biomeMap := new int[0, 0];
      hasMap := false;
      width, height := 0, 0;
      colorToBiome, colorToModifier := map[], map[];
      loaded := false;
    }

    /**
     * Stores the decoded image (its `getRGB` words) and its size. An
     * unreadable image is stored as absent and fails, keeping the old size.
     */
    method LoadBiomeMap(img: Option<array2<int>>) returns (out: Outcome<string>)
      requires Valid()
      modifies this
      ensures Valid()
      ensures img.None? ==> out.Fail? && !hasMap && width == old(width) && height == old(height)
      ensures img.Some? ==> (out.Pass? && hasMap && biomeMap == img.value
        && width == img.value.Length0 && height == img.value.Length1)
      ensures colorToBiome == old(colorToBiome) && colorToModifier == old(colorToModifier) && loaded == old(loaded)
    {
      if img.None? {
        hasMap := false;
        return Fail("Biome map PNG read as null");
      }
      biomeMap := img.value;
      hasMap := true;
      width := img.value.Length0;
      height := img.value.Length1;
      return Pass;
    }

    /**
     * Reads the colour file, given as its entries in document order. A
     * missing document fails before anything changes; otherwise both tables
     * are cleared and refilled entry by entry, and the first rejected key
     * fails, leaving the tables with the entries before it.
     */
    method LoadBiomeColors(document: Option<seq<ColourEntry>>) returns (out: Outcome<LoadError>)
      requires Valid()
      modifies this
      ensures Valid()
      ensures document.None? ==> (out == Fail(NullDocument)
        && colorToBiome == old(colorToBiome) && colorToModifier == old(colorToModifier))
      ensures document.Some? ==>
        var es := document.value;
        var i := FirstInvalid(es);
        Tables(colorToBiome, colorToModifier) == ColourTables(es[..i])
        && (i == |es| ==> out == Pass)
        && (i < |es| ==> out == Fail(ParseKey(es[i].key).error))
      ensures biomeMap == old(biomeMap) && hasMap == old(hasMap) && width == old(width)
        && height == old(height) && loaded == old(loaded)
    {
      if document.None? {
        return Fail(NullDocument);
      }
      var es := document.value;
      ColourTablesKeys(es[..FirstInvalid(es)]);
      var t, stop := ReadEntries(es);
      colorToBiome, colorToModifier := t.biome, t.modifier;
      if stop < |es| {
        return Fail(ParseKey(es[stop].key).error);
      }
      return Pass;
    }

    /**
     * Marks the lookup initialised, whatever the sizes, and reports whether
     * a loaded heightmap has a different size (which the source only logs).
     */
    method FinishLoading(heightmap: Heightmap.HeightmapLoader) returns (mismatch: bool)
      requires Valid()
      modifies this
      ensures Valid() && loaded
      ensures mismatch <==> heightmap.loaded && (width != heightmap.imageWidth || height != heightmap.imageHeight)
      ensures biomeMap == old(biomeMap) && hasMap == old(hasMap) && width == old(width) && height == old(height)
      ensures colorToBiome == old(colorToBiome) && colorToModifier == old(colorToModifier)
    {
      loaded := true;
      mismatch := heightmap.loaded && (width != heightmap.imageWidth || height != heightmap.imageHeight);
    }

    /** The pixel column or row of a world coordinate: `world / 10 + size / 2` with truncating division. */
    function MapPixel(world: int, size: int): int
      requires size >= 0
    {
      JavaDiv(world, MapScale) + JavaDiv(size, 2)
    }

    predicate InMap(px: int, pz: int)
      reads this
    {
      0 <= px < width && 0 <= pz < height
    }

    /** The stripped colour of an image pixel. */
    function PixelColour(px: int, pz: int): (c: int)
      requires Valid() && hasMap && InMap(px, pz)
      reads this, biomeMap
      ensures 0 <= c < 0x100_0000
    {
      Low24(biomeMap[px, pz])
    }

    /** Whether a lookup has a table and an image to read: after finishing, with an image and a non-empty table. */
    predicate Ready(table: set<int>)
      reads this
    {
      loaded && hasMap && |table| > 0
    }

    /**
     * The biome id at a world block: none before finishing, without an
     * image, with an empty table, off the image, or for a colour the table
     * lacks; otherwise the table's biome for the pixel's colour.
     */
    function Biome(worldX: int, worldZ: int): (b: Option<string>)
      requires Valid()
      reads this, biomeMap
      ensures !Ready(colorToBiome.Keys) ==> b.None?
      ensures b.Some? ==> exists c :: c in colorToBiome && b.value == colorToBiome[c]
      ensures Ready(colorToBiome.Keys) && InMap(MapPixel(worldX, width), MapPixel(worldZ, height)) ==>
        var c := PixelColour(MapPixel(worldX, width), MapPixel(worldZ, height));
        (c in colorToBiome ==> b == Some(colorToBiome[c])) && (c !in colorToBiome ==> b.None?)
      ensures !InMap(MapPixel(worldX, width), MapPixel(worldZ, height)) ==> b.None?
    {
      if !loaded then None
      else if !hasMap || |colorToBiome| == 0 then None
      else
        var px := MapPixel(worldX, width);
        var pz := MapPixel(worldZ, height);
        if !InMap(px, pz) then None
        else
          var rgb := PixelColour(px, pz);
          if rgb in colorToBiome then Some(colorToBiome[rgb]) else None
    }

    /**
     * The terrain modifier at a world block: the default on every fallback
     * path (not finished, no image, empty table, off the image, unknown
     * colour), otherwise the table's modifier for the pixel's colour.
     */
    function TerrainModifier(worldX: int, worldZ: int): (m: real)
      requires Valid()
      reads this, biomeMap
      ensures !Ready(colorToModifier.Keys) ==> m == DefaultTerrainModifier
      ensures !InMap(MapPixel(worldX, width), MapPixel(worldZ, height)) ==> m == DefaultTerrainModifier
      ensures Ready(colorToModifier.Keys) && InMap(MapPixel(worldX, width), MapPixel(worldZ, height)) ==>
        var c := PixelColour(MapPixel(worldX, width), MapPixel(worldZ, height));
        (c in colorToModifier ==> m == colorToModifier[c]) && (c !in colorToModifier ==> m == DefaultTerrainModifier)
    {
      if !loaded || !hasMap || |colorToModifier| == 0 then DefaultTerrainModifier
      else
        var px := MapPixel(worldX, width);
        var pz := MapPixel(worldZ, height);
        if !InMap(px, pz) then DefaultTerrainModifier
        else
          var rgb := PixelColour(px, pz);
          if rgb in colorToModifier then colorToModifier[rgb] else DefaultTerrainModifier
    }

    /** The two lookups agree on where a biome is found: a biome exactly where the modifier comes from the table. */
    lemma BiomeAndModifierAgree(worldX: int, worldZ: int)
      requires Valid()
      ensures Biome(worldX, worldZ).Some? <==>
        (Ready(colorToModifier.Keys) && InMap(MapPixel(worldX, width), MapPixel(worldZ, height))
         && PixelColour(MapPixel(worldX, width), MapPixel(worldZ, height)) in colorToModifier)
    {
    }
  }

  /**
   * Truncating division makes the centre column 19 blocks wide: every world
   * coordinate from -9 to 9 maps to column size / 2, and the next block on
   * either side to its neighbour.
   */
  lemma CentreColumnWidth(world: int, size: int)
    requires size >= 0
    ensures -9 <= world <= 9 ==> JavaDiv(world, MapScale) + JavaDiv(size, 2) == size / 2
    ensures JavaDiv(10, MapScale) + JavaDiv(size, 2) == size / 2 + 1
    ensures JavaDiv(-10, MapScale) + JavaDiv(size, 2) == size / 2 - 1
  {
  }
}
