# Map-driven world generation, modelled in Dafny

This project models the map-driven world generation of the Game of Thrones
mod (`net.got.worldgen`) and the mod's server-tick work queue
(`net.got.GotMod`). It proves properties of that model.

- **The shared domain warp** (`MapWarp`).
  - A 32-bit wrapping lattice hash feeds bilinear value noise.
  - Five octaves of value noise form a normalised fractal Brownian motion (fBm).
  - Two fBm passes move a raw map coordinate by at most 2.8 pixels per axis.
- **The elevation raster** (`HeightmapLoader`).
  - Every pixel decodes through HSV to the ocean sentinel -0.05 or to a land elevation in [0, 1].
  - Out-of-range reads give the sentinel.
  - Lookups use a Catmull-Rom bicubic filter, clamped between the four surrounding cells.
  - A ring search finds the nearest land cell. Its early exit is proved sound.
- **The biome-paint raster** (`BiomemapLoader`).
  - Stored colours have the alpha byte stripped.
  - A warped lookup falls back to deep ocean.
  - A raw lookup clamps its coordinates.
- **Palette classification and biome selection** (`GotBiomeSource`).
  - An exact palette hit wins. Otherwise the nearest colour by squared RGB distance wins, and ties go to the earliest entry.
  - The fallback biome is `got:north`, else `got:ocean`, else the first biome.
- **The colour table and the unwarped biome lookup** (`BiomeMapLoader`).
  - Keys must have the form `#RRGGBB`.
  - The terrain modifier defaults to 4.0.
  - World blocks map to pixels at 10 blocks per pixel, with Java's truncating division.
- **The chunk generator** (`GotChunkGenerator`).
  - The 32-block blending cell corrects for negative coordinates.
  - A smoothstep-weighted bilinear blend interpolates the corner values.
  - The terrain height combines the blend with two noise terms.
  - Each column is stone, then fluid, then air.
- **The server work queue** (`GotMod.queueServerWork` and `onServerTick`).

## Modelling choices

- The modules follow the Java classes, one file each:
  - `map_warp.dfy` (MapWarp)
  - `heightmap.dfy` (Heightmap)
  - `biomemap.dfy` (Biomemap)
  - `biome_source.dfy` (BiomeSource)
  - `biome_color_map.dfy` (BiomeColorMap)
  - `chunk_generator.dfy` (ChunkGenerator)
  - `work_queue.dfy` (WorkQueue)
- `java_math.dfy` defines the Java semantics the model needs:
  - 32-bit wrap-around `Wrap32`;
  - truncating `/` as `JavaDiv`;
  - `Math.floor` and `Math.round`;
  - `& 0xFFFFFF` as `Low24`;
  - float `%` as `FloatRem`.
- `interpolation.dfy` holds `lerp`, `smoothStep` and bilinear interpolation. MapWarp and the chunk generator share them.
- The loaders' static state becomes classes over `array2` rasters:
  - `Heightmap.HeightmapLoader`
  - `Biomemap.BiomemapLoader`
  - `BiomeColorMap.BiomeMapLoader`
- The work queue becomes a class holding a sequence of `Task` objects. A tick decrements their counts in place. Decoded images are given as their `getRGB` words.
- The lookup functions model the pure queries:
  - `ElevationAtWorld`, `Bicubic` and `Raw`;
  - `ColorAtWorld`, `RawPixel` and `WarpedPixel`;
  - `Biome` and `TerrainModifier`.
- Loops in the source become methods with loop invariants, each proved equal to a specification function or predicate:
  - the pixel loops (`Load`);
  - `fbm` (`MapWarp.Fbm`, proved to be `FbmValue`);
  - the ring search (`NearestLandDist2`);
  - the palette scan (`ClosestPaletteMatch`, proved to be `ClosestMatch`);
  - the constructor's table loop (`BuildLocationMap`);
  - the colour-file loop (`ReadEntries`);
  - the column fills;
  - the tick.
- Floating-point values are modelled as exact reals.
- The hash is modelled exactly on integers reduced modulo 2^32. The exclusive or is taken bit by bit over 32 bits, so the result is bit-exact with Java's `int` arithmetic.
- The work queue models Java's `int` decrement of `Integer.MIN_VALUE`, which wraps to `Integer.MAX_VALUE`.
- The chunk generator's `(c << 4) + l`, `x - baseX` and `baseX + 32` are modelled with Java's `int` wrap-around. So is the biome source's `x << 2`.

## Model

| member | source | states |
|---|---|---|
| MapWarp.HashBits | src/main/java/net/got/worldgen/MapWarp.java:167-171 | the hash word is an unsigned 32-bit pattern: the Java int arithmetic taken modulo 2^32, with the xor bit by bit |
| MapWarp.Hash | src/main/java/net/got/worldgen/MapWarp.java:167-173 | `1 - (n & 0x7fffffff)/2^30` lies in (-1, 1], inside the documented [-1, 1] |
| MapWarp.ValueNoise | src/main/java/net/got/worldgen/MapWarp.java:150-165 | value noise lies in [-1, 1] |
| MapWarp.ValueNoiseBetweenCorners | src/main/java/net/got/worldgen/MapWarp.java:151-164 | the weights are in [0, 1], so value noise lies between the smallest and the largest of the four corner hashes |
| MapWarp.ValueNoiseAtLattice | src/main/java/net/got/worldgen/MapWarp.java:151-164 | at an integer lattice point, value noise equals the lattice hash |
| MapWarp.DampedBound | src/main/java/net/got/worldgen/MapWarp.java:131-139 | a noise value in [-1, 1] scaled by octave i's amplitude lies within ±0.5^(i+1) |
| MapWarp.AmplitudeSumClosedForm | src/main/java/net/got/worldgen/MapWarp.java:131-139 | the amplitudes 0.5, 0.25, … of n octaves sum to 1 - 0.5^n |
| MapWarp.OctaveSumBound | src/main/java/net/got/worldgen/MapWarp.java:135-140 | the sum of n octaves lies within ± the sum of their amplitudes |
| MapWarp.FiveOctaveAmplitudeSum | src/main/java/net/got/worldgen/MapWarp.java:46-52 | with 5 octaves and persistence 0.5, the normaliser `maxVal` is 31/32 |
| MapWarp.FbmValue | src/main/java/net/got/worldgen/MapWarp.java:129-143 | fBm normalised by the amplitude sum lies in [-1, 1] |
| MapWarp.OctaveSumStep | src/main/java/net/got/worldgen/MapWarp.java:136-139 | one loop pass adds octave i: noise at frequency 2^i and seed `seed + 997·i`, scaled by amplitude 0.5^(i+1) |
| MapWarp.Fbm | src/main/java/net/got/worldgen/MapWarp.java:129-143 | the fBm loop returns exactly FbmValue, a value in [-1, 1] |
| MapWarp.Warp | src/main/java/net/got/worldgen/MapWarp.java:99-120 | the warped coordinate differs from the raw `world/56 + size/2` by at most WARP2_SCALE (2.8) on each axis |
| Interpolation.LerpBetween | src/main/java/net/got/worldgen/MapWarp.java:175 | for t in [0, 1], lerp lies between its two end values |
| Interpolation.Lerp | src/main/java/net/got/worldgen/MapWarp.java:175 | `lerp(t, a, b)`, the point a fraction t from a to b; its properties are LerpEnds and LerpBetween |
| Interpolation.LerpEnds | src/main/java/net/got/worldgen/MapWarp.java:175 | lerp gives a at t = 0 and b at t = 1 |
| Interpolation.BilerpBetween | src/main/java/net/got/worldgen/MapWarp.java:159-164 | a bilinear blend with weights in [0, 1] lies between the smallest and the largest corner |
| Interpolation.BilerpOrigin | src/main/java/net/got/worldgen/MapWarp.java:164 | with both weights 0 the blend is the first corner |
| Interpolation.SmoothStepRange | src/main/java/net/got/worldgen/GotChunkGenerator.java:74-76 | smoothstep maps [0, 1] into [0, 1] |
| Interpolation.SmoothStep | src/main/java/net/got/worldgen/GotChunkGenerator.java:74-76 | `smoothStep(t)`, shared with MapWarp's inline smoothstep; its properties are SmoothStepRange, SmoothStepEnds and SmoothStepMonotone |
| Interpolation.SmoothStepEnds | src/main/java/net/got/worldgen/GotChunkGenerator.java:74-76 | smoothstep fixes 0 and 1 |
| Interpolation.SmoothStepMonotone | src/main/java/net/got/worldgen/GotChunkGenerator.java:74-76 | smoothstep is non-decreasing on [0, 1] |
| Heightmap.RgbToHsv | src/main/java/net/got/worldgen/HeightmapLoader.java:201-214 | v is the largest channel, the hue lies in [0, 1), and the hue is 0 when all channels are equal |
| Heightmap.HueInRange | src/main/java/net/got/worldgen/HeightmapLoader.java:206-211 | each hue sector divided by 6 and wrapped into [0, 1) stays in [0, 1) |
| Heightmap.LandElevation | src/main/java/net/got/worldgen/HeightmapLoader.java:75-76 | the land elevation `clamp((0.49 - h)/(0.49 - 0.02), 0, 1)` lies in [0, 1] |
| Heightmap.DecodeHsv | src/main/java/net/got/worldgen/HeightmapLoader.java:71-77 | the cell is OCEAN_VALUE exactly when `v < 0.25 && h > 0.60`; otherwise it is the clamped land elevation, in [0, 1] |
| Heightmap.LandElevationEnds | src/main/java/net/got/worldgen/HeightmapLoader.java:15-20 | hue 0.49 (sea level) and above decodes to 0; hue 0.02 (peak) and below decodes to 1 |
| Heightmap.LandElevationMonotone | src/main/java/net/got/worldgen/HeightmapLoader.java:75-76 | a smaller hue never decodes to a lower land elevation |
| Heightmap.DecodePixel | src/main/java/net/got/worldgen/HeightmapLoader.java:63-77 | every decoded pixel is OCEAN_VALUE or in [0, 1] |
| Heightmap.Cubic | src/main/java/net/got/worldgen/HeightmapLoader.java:189-195 | `cubic`, the source's Catmull-Rom coefficients; its properties are CubicEnds and CubicConstant |
| Heightmap.CubicEnds | src/main/java/net/got/worldgen/HeightmapLoader.java:189-195 | the Catmull-Rom cubic gives b at t = 0 and c at t = 1 |
| Heightmap.CubicConstant | src/main/java/net/got/worldgen/HeightmapLoader.java:189-195 | four equal points give that value for every t |
| Heightmap.HeightmapLoader.constructor | src/main/java/net/got/worldgen/HeightmapLoader.java:42-45 | the raster starts empty and unloaded |
| Heightmap.HeightmapLoader.Load | src/main/java/net/got/worldgen/HeightmapLoader.java:53-89 | a fresh raster of the image's size holds the decoding of every pixel, and the map is loaded |
| Heightmap.HeightmapLoader.Raw | src/main/java/net/got/worldgen/HeightmapLoader.java:184-187 | any out-of-range coordinate gives OCEAN_VALUE, any other coordinate the stored cell |
| Heightmap.HeightmapLoader.Bicubic | src/main/java/net/got/worldgen/HeightmapLoader.java:158-178 | the filtered value lies between the smallest and the largest of cells (x1,z1), (x1+1,z1), (x1,z1+1), (x1+1,z1+1), so it lies in [-0.05, 1] |
| Heightmap.HeightmapLoader.CubicRow | src/main/java/net/got/worldgen/HeightmapLoader.java:179-181 | `cubicRow`, the cubic along x through four Raw cells of row pz; Bicubic's contract states its bounds |
| Heightmap.HeightmapLoader.BicubicAtGridPoint | src/main/java/net/got/worldgen/HeightmapLoader.java:158-187 | at a grid point the filter returns the stored cell, or the sentinel outside the raster |
| Heightmap.HeightmapLoader.ElevationAtWorld | src/main/java/net/got/worldgen/HeightmapLoader.java:99-103 | 0 before loading; otherwise the bicubic value at the warped position, in [-0.05, 1] |
| Heightmap.HeightmapLoader.ScanColumn | src/main/java/net/got/worldgen/HeightmapLoader.java:137-147 | the dz loop skips inner and out-of-range cells and leaves the best squared distance at most every land cell of the column visited |
| Heightmap.HeightmapLoader.ScanRing | src/main/java/net/got/worldgen/HeightmapLoader.java:136-148 | after ring r, no land cell in rings 0 to r is closer than the best, and a found best is the distance of one of them |
| Heightmap.HeightmapLoader.OuterRingsFarther | src/main/java/net/got/worldgen/HeightmapLoader.java:133-134 | once (r-1)^2 exceeds the best squared distance, no land cell in ring r or beyond is closer: the early break is sound |
| Heightmap.HeightmapLoader.NearestLandFound | src/main/java/net/got/worldgen/HeightmapLoader.java:129-151 | the search finds land exactly when some land cell within maxRadius rings lies closer than maxRadius + 1 |
| Heightmap.HeightmapLoader.NearestLandDist2 | src/main/java/net/got/worldgen/HeightmapLoader.java:129-149 | the squared distance returned is the minimum over all land cells of the square; when found it is below (maxRadius+1)^2, otherwise it equals it |
| Heightmap.HeightmapLoader.SearchComplete | src/main/java/net/got/worldgen/HeightmapLoader.java:132-149 | the scanned rings, together with the whole square or the rings the break skipped, give the nearest-land result |
| Heightmap.HeightmapLoader.NearestLandDistanceSq | src/main/java/net/got/worldgen/HeightmapLoader.java:117-152 | before loading, or when no land is found, the squared result is (maxRadius+1)^2; otherwise it is the minimum squared distance to a land cell centre near the warped position, strictly below (maxRadius+1)^2 |
| Biomemap.BiomemapLoader.constructor | src/main/java/net/got/worldgen/BiomemapLoader.java:26-30 | the raster starts empty and unloaded |
| Biomemap.BiomemapLoader.Load | src/main/java/net/got/worldgen/BiomemapLoader.java:42-64 | a fresh raster of the image's size holds `rgb & 0xFFFFFF` of every pixel, so each is in [0, 0xFFFFFF], and the map is loaded |
| Biomemap.BiomemapLoader.ColorAtWorld | src/main/java/net/got/worldgen/BiomemapLoader.java:85-100 | 0x110751 before loading or when the rounded warped pixel is off the image; otherwise that pixel's stored colour |
| Biomemap.BiomemapLoader.RawPixel | src/main/java/net/got/worldgen/BiomemapLoader.java:118-123 | 0x110751 before loading; otherwise the pixel at x clamped to [0, width-1] and z clamped to [0, height-1], so always a pixel of the image, and the pixel itself when on the image |
| Biomemap.BiomemapLoader.RawPixelEdges | src/main/java/net/got/worldgen/BiomemapLoader.java:118-123 | a coordinate past an edge of the image reads the colour of the pixel on that edge (column or row 0 below, the last column or row above) |
| Biomemap.BiomemapLoader.WarpedPixel | src/main/java/net/got/worldgen/BiomemapLoader.java:128-138 | (0, 0) before loading; otherwise the rounded warped pixel with x clamped to [0, width-1] and z clamped to [0, height-1], each axis on its own, so always on the image and the warped pixel itself when that is on the image |
| Biomemap.BiomemapLoader.ColorIsRawOfWarped | src/main/java/net/got/worldgen/BiomemapLoader.java:90-99 | whenever the rounded warped pixel is on the image, the colour at a world block is the raw colour at its warped pixel |
| Biomemap.BiomemapLoader.UniformMap | src/main/java/net/got/worldgen/BiomemapLoader.java:94-99 | on a one-colour image, raw lookups give that colour and warped lookups give it or 0x110751 |
| BiomeSource.PaletteWellFormed | src/main/java/net/got/worldgen/GotBiomeSource.java:47-66 | the palette has 15 distinct 24-bit colours |
| BiomeSource.ColourDistance | src/main/java/net/got/worldgen/GotBiomeSource.java:194-206 | the squared RGB distance lies in [0, 3·255²] |
| BiomeSource.ZeroDistanceSameColour | src/main/java/net/got/worldgen/GotBiomeSource.java:194-206 | two 24-bit colours are at distance 0 exactly when they are equal |
| BiomeSource.ExactMatch | src/main/java/net/got/worldgen/GotBiomeSource.java:190-192 | a lookup of the colour in the palette is absent exactly when no entry has that key; when present it is the biome of an entry with that key |
| BiomeSource.NearestPrefix | src/main/java/net/got/worldgen/GotBiomeSource.java:198-212 | the index found is at the smallest distance, and every earlier entry is strictly farther |
| BiomeSource.ClosestPaletteMatch | src/main/java/net/got/worldgen/GotBiomeSource.java:189-215 | the exact hit followed by the strict `<` scan returns ClosestMatch |
| BiomeSource.ClosestMatchNoneIffEmpty | src/main/java/net/got/worldgen/GotBiomeSource.java:185-187 | no match exactly when the palette is empty |
| BiomeSource.ClosestMatchInPalette | src/main/java/net/got/worldgen/GotBiomeSource.java:198-214 | a match is always the biome of some palette entry |
| BiomeSource.ClosestMatchExact | src/main/java/net/got/worldgen/GotBiomeSource.java:190-192 | a colour that is a palette key gives that key's biome |
| BiomeSource.ClosestMatchNearest | src/main/java/net/got/worldgen/GotBiomeSource.java:194-212 | any other colour gives an entry at the smallest distance, and every earlier entry is strictly farther: ties go to the earliest |
| BiomeSource.ScanAgreesWithShortcut | src/main/java/net/got/worldgen/GotBiomeSource.java:190-212 | with distinct 24-bit keys, the scan alone finds entry i for entry i's colour |
| BiomeSource.OffMapIsDeepOcean | src/main/java/net/got/worldgen/GotBiomeSource.java:58 | the off-map colour 0x110751 is classified as `got:deep_ocean` |
| BiomeSource.LocationMapContents | src/main/java/net/got/worldgen/GotBiomeSource.java:126-128 | a location is in the table exactly when some biome has that key, and it maps to the last such biome |
| BiomeSource.BuildLocationMap | src/main/java/net/got/worldgen/GotBiomeSource.java:124-128 | the constructor's loop builds LocationMap |
| BiomeSource.ChooseFallback | src/main/java/net/got/worldgen/GotBiomeSource.java:130-134 | `got:north`, else `got:ocean`, else the first biome; FallbackChoice states that it exists exactly for a non-empty list and is listed |
| BiomeSource.FallbackChoice | src/main/java/net/got/worldgen/GotBiomeSource.java:130-134 | a fallback exists exactly when the list is non-empty, and it is one of the listed biomes |
| BiomeSource.LocationMapValues | src/main/java/net/got/worldgen/GotBiomeSource.java:126-128 | every value of the location table is a listed biome |
| BiomeSource.Create | src/main/java/net/got/worldgen/GotBiomeSource.java:122-135 | fails exactly for an empty list; otherwise it keeps the list and the table, picks `got:north`, else `got:ocean`, else the first biome, and every biome it can return is listed |
| BiomeSource.NoiseBiome | src/main/java/net/got/worldgen/GotBiomeSource.java:161-175 | samples world (x<<2, z<<2) and always returns a registered biome: the table's holder for the match, or the fallback |
| BiomeSource.NoiseBiomeIgnoresHeight | src/main/java/net/got/worldgen/GotBiomeSource.java:161-166 | the biome does not depend on y |
| BiomeSource.NoiseBiomeBeforeLoad | src/main/java/net/got/worldgen/GotBiomeSource.java:161-175 | before the paint map loads, every column is `got:deep_ocean` when registered, else the fallback |
| BiomeColorMap.ParseHexDigits | src/main/java/net/got/worldgen/BiomeMapLoader.java:77 | a digit string has a value exactly when every character is a hexadecimal digit, and the value of k digits is below 16^k |
| BiomeColorMap.ParseInt16 | src/main/java/net/got/worldgen/BiomeMapLoader.java:77 | `Integer.parseInt(s, 16)`: accepted exactly when s is an optional '+' or '-' followed by at least one hexadecimal digit and the value fits an int; the value is the digits' value, negated after '-'; bounds on the value |
| BiomeColorMap.ParseKey | src/main/java/net/got/worldgen/BiomeMapLoader.java:73-77 | a key without a leading '#' or of length other than 7 is an invalid key; otherwise it fails exactly when the six characters after '#' are not a hexadecimal int, with a parse error, and succeeds with that int; a valid key is in [-0xFFFFF, 0xFFFFFF] |
| BiomeColorMap.HexKeyAccepted | src/main/java/net/got/worldgen/BiomeMapLoader.java:73-77 | '#' and six hexadecimal digits of either case parse to their value, in [0, 0xFFFFFF] |
| BiomeColorMap.SignedKeyAccepted | src/main/java/net/got/worldgen/BiomeMapLoader.java:73-77 | '#', a '+' or '-', and five hexadecimal digits parse to the digits' value, negated after '-' |
| BiomeColorMap.HexString | src/main/java/net/got/worldgen/BiomeMapLoader.java:166 | `%06X` formatting: k upper-case hexadecimal digits |
| BiomeColorMap.FormatKeyRoundTrip | src/main/java/net/got/worldgen/BiomeMapLoader.java:73-77 | every 24-bit colour written as `#RRGGBB` parses back to itself |
| BiomeColorMap.HexStringRoundTrip | src/main/java/net/got/worldgen/BiomeMapLoader.java:77 | k formatted hexadecimal digits parse back to the number |
| BiomeColorMap.ColourTablesKeys | src/main/java/net/got/worldgen/BiomeMapLoader.java:91-99 | both tables have the same colours |
| BiomeColorMap.ColourTablesMembership | src/main/java/net/got/worldgen/BiomeMapLoader.java:70-99 | a colour is in the tables exactly when some entry's key parses to it |
| BiomeColorMap.ColourTablesLastWins | src/main/java/net/got/worldgen/BiomeMapLoader.java:83-99 | a colour maps to the biome and the modifier of its last entry, and the modifier defaults to 4.0 |
| BiomeColorMap.FirstInvalid | src/main/java/net/got/worldgen/BiomeMapLoader.java:70-77 | the index of the first rejected key: every earlier key is valid, and it is the length exactly when all are |
| BiomeColorMap.ReadEntries | src/main/java/net/got/worldgen/BiomeMapLoader.java:70-100 | the loop stops at the first rejected key with the tables of the entries before it |
| BiomeColorMap.SignedKeyNeverMatches | src/main/java/net/got/worldgen/BiomeMapLoader.java:77-99 | a negative key parsed from a signed entry never equals a stripped pixel colour |
| BiomeColorMap.BiomeMapLoader.constructor | src/main/java/net/got/worldgen/BiomeMapLoader.java:26-32 | no image, empty tables, not loaded |
| BiomeColorMap.BiomeMapLoader.LoadBiomeMap | src/main/java/net/got/worldgen/BiomeMapLoader.java:38-54 | a readable image is stored with its size; a null image is stored as absent and fails |
| BiomeColorMap.BiomeMapLoader.LoadBiomeColors | src/main/java/net/got/worldgen/BiomeMapLoader.java:56-108 | a null document fails, and the tables are unchanged; otherwise both tables are cleared and refilled in order, and the first invalid key fails with the entries before it kept; success exactly when every key is valid |
| BiomeColorMap.BiomeMapLoader.FinishLoading | src/main/java/net/got/worldgen/BiomeMapLoader.java:111-125 | sets loaded whatever the sizes, and reports a mismatch exactly when a loaded heightmap's size differs |
| BiomeColorMap.BiomeMapLoader.PixelColour | src/main/java/net/got/worldgen/BiomeMapLoader.java:158 | the stripped pixel colour is 24-bit |
| BiomeColorMap.BiomeMapLoader.Biome | src/main/java/net/got/worldgen/BiomeMapLoader.java:135-171 | none when not loaded, without an image, with an empty table, off the image or for an unknown colour; otherwise the table's biome for `rgb & 0xFFFFFF` at `world/10 + size/2` (truncating) |
| BiomeColorMap.BiomeMapLoader.TerrainModifier | src/main/java/net/got/worldgen/BiomeMapLoader.java:182-200 | 4.0 on every fallback path; otherwise the table's modifier for the same pixel as Biome |
| BiomeColorMap.BiomeMapLoader.BiomeAndModifierAgree | src/main/java/net/got/worldgen/BiomeMapLoader.java:146-150 | both lookups use the same pixel: a biome is found exactly where the modifier comes from the table |
| BiomeColorMap.BiomeMapLoader.MapPixel | src/main/java/net/got/worldgen/BiomeMapLoader.java:146-150 | `world / MAP_SCALE + size / 2` with Java's truncating division; CentreColumnWidth states its behaviour around 0 |
| BiomeColorMap.CentreColumnWidth | src/main/java/net/got/worldgen/BiomeMapLoader.java:149-150 | truncating division maps world -9 to 9 to the centre pixel, and ±10 to its neighbours |
| ChunkGenerator.GridBase | src/main/java/net/got/worldgen/GotChunkGenerator.java:80-85 | for every int x, including negative ones, the base is a multiple of 32 with 0 ≤ x - base ≤ 32 (below 32 for x ≥ 0, above 0 for x < 0) |
| ChunkGenerator.CellFractionRange | src/main/java/net/got/worldgen/GotChunkGenerator.java:94-99 | the fraction lies in [0, 1], so `Math.abs` leaves it unchanged |
| ChunkGenerator.GridLines | src/main/java/net/got/worldgen/GotChunkGenerator.java:80-99 | a non-negative multiple of 32 is its own base with weight 0; a negative multiple is the far corner of its cell, with weight 1 |
| ChunkGenerator.WeightRange | src/main/java/net/got/worldgen/GotChunkGenerator.java:94-103 | the smoothstep weight lies in [0, 1] |
| ChunkGenerator.CellAt | src/main/java/net/got/worldgen/GotChunkGenerator.java:80-103 | the cell of (x, y) has both grid bases, and both weights in [0, 1] |
| ChunkGenerator.BlendIsBilerp | src/main/java/net/got/worldgen/GotChunkGenerator.java:106-109 | the four-term sum is a lerp along x followed by a lerp along y |
| ChunkGenerator.BlendBetween | src/main/java/net/got/worldgen/GotChunkGenerator.java:106-109 | the blend is a convex combination, between the smallest and the largest corner |
| ChunkGenerator.BlendEqualCorners | src/main/java/net/got/worldgen/GotChunkGenerator.java:140-143 | equal corners blend to their common value |
| ChunkGenerator.BlendCell | src/main/java/net/got/worldgen/GotChunkGenerator.java:106-109 | a cell's blend lies between its smallest and largest corner value |
| ChunkGenerator.ValueWithTransition | src/main/java/net/got/worldgen/GotChunkGenerator.java:78-110 | the blended value lies between the smallest and the largest of the four mapped corner samples |
| ChunkGenerator.ValueWithTransitionForVariation | src/main/java/net/got/worldgen/GotChunkGenerator.java:112-144 | the blended variation lies between the smallest and the largest corner variation |
| ChunkGenerator.TransitionsAgree | src/main/java/net/got/worldgen/GotChunkGenerator.java:78-144 | with the identity function both transitions compute the same cell and weights, differing only in the sampler |
| ChunkGenerator.TransitionOfUniformCorners | src/main/java/net/got/worldgen/GotChunkGenerator.java:122-143 | four equal corner samples give that value |
| ChunkGenerator.TerrainHeight | src/main/java/net/got/worldgen/GotChunkGenerator.java:202-218 | the height is the floor of base + variation · (0.8 · continent + 0.2 · detail) |
| ChunkGenerator.FlatWithoutVariation | src/main/java/net/got/worldgen/GotChunkGenerator.java:204-217 | zero blended variation gives floor(blended base) |
| ChunkGenerator.HeightWithinVariation | src/main/java/net/got/worldgen/GotChunkGenerator.java:204-217 | with noise in [-1, 1], the height lies within the blended variation of the blended base (one block lower for the floor) |
| ChunkGenerator.ColumnState | src/main/java/net/got/worldgen/GotChunkGenerator.java:181-186 | stone exactly when y ≤ h, fluid exactly when h < y ≤ sea, air exactly when y is above both |
| ChunkGenerator.ColumnLayered | src/main/java/net/got/worldgen/GotChunkGenerator.java:181-186 | stone lies below stone, air above air, and fluid appears only when the terrain lies below sea level |
| ChunkGenerator.BlockCoord | src/main/java/net/got/worldgen/GotChunkGenerator.java:177-178 | the block coordinate is a Java int |
| ChunkGenerator.FillColumn | src/main/java/net/got/worldgen/GotChunkGenerator.java:181-187 | every block of the column follows the rule for y = minY + i, and no other column changes |
| ChunkGenerator.FillFromNoise | src/main/java/net/got/worldgen/GotChunkGenerator.java:159-192 | every block (x, i, z) of the 16×16 chunk follows the rule for y = minY + i with the height of its world column |
| ChunkGenerator.BaseColumn | src/main/java/net/got/worldgen/GotChunkGenerator.java:266-282 | a fresh array of the level's height, with states[i] following the same rule for y = minY + i |
| WorkQueue.Decrement | src/main/java/net/got/GotMod.java:119 | `t.getB() - 1` subtracts one, and Integer.MIN_VALUE wraps to Integer.MAX_VALUE |
| WorkQueue.Actions | src/main/java/net/got/GotMod.java:125 | the ids run, one per ready task, in order |
| WorkQueue.KeptMembers | src/main/java/net/got/GotMod.java:118-126 | a task stays exactly when it was queued and its count is positive |
| WorkQueue.FiredMembers | src/main/java/net/got/GotMod.java:118-123 | a task runs exactly when it was queued and its count is zero or below |
| WorkQueue.KeptAndFiredPartition | src/main/java/net/got/GotMod.java:118-126 | every task either stays or runs, never both, and none is lost |
| WorkQueue.KeptDistinct | src/main/java/net/got/GotMod.java:126 | those tasks that stay are still distinct objects |
| WorkQueue.ServerWorkQueue.constructor | src/main/java/net/got/GotMod.java:107-108 | the queue starts empty |
| WorkQueue.ServerWorkQueue.QueueServerWork | src/main/java/net/got/GotMod.java:110-112 | appends a new task (action, ticks) at the end and keeps the rest; the queue stays valid: distinct tasks, every count a Java int |
| WorkQueue.ServerWorkQueue.OnServerTick | src/main/java/net/got/GotMod.java:114-127 | every count drops by one; those at zero or below run in queue order and leave; the others stay in order, all with positive counts |
| WorkQueue.DecrementAll | src/main/java/net/got/GotMod.java:118-123 | decrements every count in place and collects the ready tasks in queue order |
| WorkQueue.RemoveAll | src/main/java/net/got/GotMod.java:126 | removing the ready tasks, compared by identity, leaves the kept ones in order |
| WorkQueue.Countdown | src/main/java/net/got/GotMod.java:119 | after any number of ticks the count is still a Java int |
| WorkQueue.CountdownValue | src/main/java/net/got/GotMod.java:119 | without wrap-around, k ticks subtract k |
| WorkQueue.RunsOnSchedule | src/main/java/net/got/GotMod.java:110-127 | a task queued with n ≥ 1 runs on tick n and not before; one queued with Integer.MIN_VALUE < n ≤ 0 runs on the first tick |
| WorkQueue.MinValueWraps | src/main/java/net/got/GotMod.java:119-120 | a task queued with Integer.MIN_VALUE does not run on the first tick: its count wraps to Integer.MAX_VALUE |

## Left out

- MapWarp.Hash: the Java result is a float. Rounding `(n & 0x7fffffff) / 2^30` to float can give exactly 2.0 and so a hash of -1. The model uses exact reals and states (-1, 1].
- Floating point in general: every `float`/`double` computation is modelled as exact real arithmetic. IEEE rounding, overflow and NaN are not modelled.
- Heightmap.HeightmapLoader.NearestLandDistanceSq: returns the squared distance and a found flag instead of `Math.sqrt(bestDist2)`. Square roots are not modelled. When not found, the square of maxRadius + 1 stands for maxRadius + 1.
- Image and JSON decoding (`ImageIO.read`, Gson) are inputs. Decoded images are given as arrays of `getRGB` words. The colour file is given as its entries in document order, each with key, biome id and optional modifier.
- `getAsJsonObject`, a missing `"biome"` field, a non-number modifier and `ResourceLocation.parse` failures are not modelled. Biome ids are kept as strings.
- BiomeColorMap.HexDigitValue: accepts ASCII hexadecimal digits only. `Character.digit` also accepts other Unicode digits.
- The heightmap and biomemap `load` failures (a null image leads to a RuntimeException) are not modelled. `Load` is given a decoded image.
- The logging output and the ocean and land pixel counters of `HeightmapLoader.load` only print, so they are left out.
- The `Math.random` sampling of unknown colours in `getBiome` only logs, so it is left out.
- The mismatch warning of `finishLoading` is reported as a boolean.
- `LoadBiomeColors` reports each failure as an error value. The source wraps them all in one RuntimeException after printing the stack trace.
- `PerlinSimplexNoise`, `ensureNoise` and the noise values are left out. The values are the uninterpreted `continentNoise` and `detailNoise` of `ChunkGenerator.Terrain`.
- `BiomeMapLoader.getBaseHeight` and `getHeightVariation`: the chunk generator calls them, but BiomeMapLoader.java does not define them, so the model has no body to follow. They are the uninterpreted `baseHeight` and `heightVariation` samplers.
- `Mth.floor`'s saturation of values beyond the int range is not modelled.
- `y = minY + i` in the column fills is not wrapped. Level heights are far from the int range.
- In `fillFromNoise` the chunk is an explicit 16×height×16 array instead of a ChunkAccess. `setBlockState` is an array write.
- The codecs, `applyCarvers`, `buildSurface`, `spawnOriginalMobs` and the other vanilla delegates of the chunk generator engine are left out.
- WorkQueue.ServerWorkQueue.OnServerTick: running an action is reported as its id in `ran`. Actions that queue more work or touch the queue while it is traversed are not modelled. The thread safety of `ConcurrentLinkedQueue` is not modelled either. Every action is assumed to return normally: in the source a `Runnable` that throws inside `ready.forEach` skips `removeAll`, so the ready tasks that already ran stay queued and run again on the next tick.
- WorkQueue.RunsOnSchedule: excludes a task queued with Integer.MIN_VALUE. Its count wraps on the first tick, and MinValueWraps states that case.
- `warp` being pure needs no lemma. Every Dafny function is deterministic and reads only its arguments and constants.
