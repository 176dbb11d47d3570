/**
 * The shared double-pass domain warp (MapWarp.java). A 32-bit integer hash
 * feeds bilinear value noise, five octaves of value noise form fractal
 * Brownian motion (fBm), and two fBm passes displace a raw map coordinate.
 * Every map lookup in the heightmap and the biome-paint map goes through Warp.
 */
module MapWarp {
  import opened JavaMath
  import opened Interpolation

  /** World blocks per map pixel (HeightmapLoader.MAP_SCALE; the comment beside it says 28, the value is 56). */
  const MapScale: int := 56

  const FbmBaseFreq: real := 1.0 / 18.0
  const FbmOctaves: nat := 5
  const FbmPersistence: real := 0.5
  const FbmLacunarity: real := 2.0
  const Warp1Scale: real := 3.5
  const Warp2Scale: real := 2.8

  /** The four channel seeds, one per fBm field. */
  const Seed0: int := 1337
  const Seed1: int := 7919
  const Seed2: int := 4253
  const Seed3: int := 9001

  /** The seed offset between consecutive octaves. */
  const OctaveSeedStep: int := 997

  const TwoTo32: int := 0x1_0000_0000
  const TwoTo31: int := 0x8000_0000

  /**
   * The exclusive or of the low k bits of a and b, bit by bit from the
   * least significant end: Java's `^` on the unsigned 32-bit patterns when
   * k is 32.
   */
  function XorBits(a: nat, b: nat, k: nat): (r: nat)
    ensures r < Pow2(k)
  {
    if k == 0 then 0
    else (if a % 2 == b % 2 then 0 else 1) + 2 * XorBits(a / 2, b / 2, k - 1)
  }

  /**
   * The lattice hash on Java ints, as an unsigned 32-bit pattern. Each Java
   * int operation wraps modulo 2^32, and reducing modulo 2^32 once after
   * several additions and multiplications gives the same low 32 bits, so
   * the reductions below are exactly the wrap-arounds Java performs:
   * `n = x*1619 + z*31337 + seed*6971; n = (n << 13) ^ n;
   *  n * (n*n*15731 + 789221) + 1376312589`.
   */
  function HashBits(x: int, z: int, seed: int): (n: nat)
    ensures n < TwoTo32
  {
    var n0 := (x * 1619 + z * 31337 + seed * 6971) % TwoTo32;
    var n1 := XorBits(n0 * 8192 % TwoTo32, n0, 32);
    (n1 * (n1 * n1 * 15731 + 789221) + 1376312589) % TwoTo32
  }

  /** `n & 0x7fffffff` on the 32-bit pattern n: its low 31 bits. */
  function Low31(n: nat): (m: int)
    ensures 0 <= m < TwoTo31
  {
    n % TwoTo31
  }

  /** `1 - (n & 0x7fffffff) / 2^30`: a lattice value in (-1, 1]. */
  function Hash(x: int, z: int, seed: int): (r: real)
    ensures -1.0 < r <= 1.0
  {
    1.0 - Low31(HashBits(x, z, seed)) as real / 1073741824.0
  }

  /** Bilinear value noise with smoothstep weights between the four surrounding lattice hashes. */
  function ValueNoise(x: real, z: real, seed: int): (r: real)
    ensures -1.0 <= r <= 1.0
  {
    var ix := Floor(x);
    var iz := Floor(z);
    var fx := x - ix as real;
    var fz := z - iz as real;
    SmoothStepRange(fx);
    SmoothStepRange(fz);
    var h00, h10, h01, h11 := Hash(ix, iz, seed), Hash(ix + 1, iz, seed), Hash(ix, iz + 1, seed), Hash(ix + 1, iz + 1, seed);
    BilerpWithin(SmoothStep(fx), SmoothStep(fz), h00, h10, h01, h11, -1.0, 1.0);
    Bilerp(SmoothStep(fx), SmoothStep(fz), h00, h10, h01, h11)
  }

  /** The noise inside a cell never leaves the range spanned by the cell's four lattice hashes. */
  lemma ValueNoiseBetweenCorners(x: real, z: real, seed: int)
    ensures CornerMin(Floor(x), Floor(z), seed) <= ValueNoise(x, z, seed) <= CornerMax(Floor(x), Floor(z), seed)
  {
    var ix := Floor(x);
    var iz := Floor(z);
    SmoothStepRange(x - ix as real);
    SmoothStepRange(z - iz as real);
    BilerpBetween(SmoothStep(x - ix as real), SmoothStep(z - iz as real),
                  Hash(ix, iz, seed), Hash(ix + 1, iz, seed), Hash(ix, iz + 1, seed), Hash(ix + 1, iz + 1, seed));
  }

  /** The smallest of the four lattice hashes around cell (ix, iz). */
  function CornerMin(ix: int, iz: int, seed: int): real {
    Min(Min(Hash(ix, iz, seed), Hash(ix + 1, iz, seed)),
        Min(Hash(ix, iz + 1, seed), Hash(ix + 1, iz + 1, seed)))
  }

  /** The largest of the four lattice hashes around cell (ix, iz). */
  function CornerMax(ix: int, iz: int, seed: int): real {
    Max(Max(Hash(ix, iz, seed), Hash(ix + 1, iz, seed)),
        Max(Hash(ix, iz + 1, seed), Hash(ix + 1, iz + 1, seed)))
  }

  /** At a lattice point the noise is exactly the lattice hash. */
  lemma ValueNoiseAtLattice(ix: int, iz: int, seed: int)
    ensures ValueNoise(ix as real, iz as real, seed) == Hash(ix, iz, seed)
  {
    assert Floor(ix as real) == ix;
    assert Floor(iz as real) == iz;
    SmoothStepEnds();
    BilerpOrigin(Hash(ix, iz, seed), Hash(ix + 1, iz, seed), Hash(ix, iz + 1, seed), Hash(ix + 1, iz + 1, seed));
  }

  /** The amplitude of octave i: `0.5^(i + 1)`, starting at 0.5 and halving each octave. */
  function Amplitude(i: nat): real {
    Pow(FbmPersistence, i + 1)
  }

  /** The frequency of octave i: `2^i`. */
  function Frequency(i: nat): real {
    Pow(FbmLacunarity, i)
  }

  /** The seed of octave i: `seed + 997 * i`. */
  function OctaveSeed(seed: int, i: nat): int {
    seed + i * OctaveSeedStep
  }

  /** v weighted as octave i: halved i + 1 times, that is `v * Amplitude(i)`. */
  function Damped(v: real, i: nat): real {
    if i == 0 then FbmPersistence * v else FbmPersistence * Damped(v, i - 1)
  }

  lemma {:induction false} DampedIsProduct(v: real, i: nat, a: real)
    requires a == Amplitude(i)
    ensures Damped(v, i) == v * a
  {
    if i > 0 {
      DampedIsProduct(v, i - 1, Amplitude(i - 1));
    }
  }

  /** A value in [-1, 1] weighted as octave i lies within its amplitude. */
  lemma {:induction false} DampedBound(v: real, i: nat)
    requires -1.0 <= v <= 1.0
    ensures -Amplitude(i) <= Damped(v, i) <= Amplitude(i)
  {
    if i > 0 {
      DampedBound(v, i - 1);
    }
  }

  /** A coordinate at the frequency of octave i. */
  function OctaveCoord(x: real, i: nat): real {
    x * Frequency(i)
  }

  /** The loop's `x * frequency`, with the running frequency of octave i, is that octave's coordinate. */
  lemma OctaveCoordAt(x: real, i: nat, frequency: real)
    requires frequency == Frequency(i)
    ensures x * frequency == OctaveCoord(x, i)
  {
  }

  /** Octave i of the fBm sum: noise at frequency 2^i and seed `seed + 997 i`, weighted by its amplitude. */
  function Octave(x: real, z: real, seed: int, i: nat): real {
    Damped(ValueNoise(OctaveCoord(x, i), OctaveCoord(z, i), OctaveSeed(seed, i)), i)
  }

  /** The weighted sum of the first n octaves. */
  function OctaveSum(x: real, z: real, seed: int, n: nat): real {
    if n == 0 then 0.0 else OctaveSum(x, z, seed, n - 1) + Octave(x, z, seed, n - 1)
  }

  /** The sum of the first n amplitudes, the normaliser `maxVal`. */
  function AmplitudeSum(n: nat): real {
    if n == 0 then 0.0 else AmplitudeSum(n - 1) + Amplitude(n - 1)
  }

  lemma {:induction false} AmplitudeSumClosedForm(n: nat)
    ensures AmplitudeSum(n) == 1.0 - Pow(0.5, n)
  {
    if n > 0 {
      AmplitudeSumClosedForm(n - 1);
    }
  }

  /** Each octave contributes at most its amplitude, so the sum is bounded by the amplitude sum. */
  lemma {:induction false} OctaveSumBound(x: real, z: real, seed: int, n: nat)
    ensures -AmplitudeSum(n) <= OctaveSum(x, z, seed, n) <= AmplitudeSum(n)
  {
    if n > 0 {
      OctaveSumBound(x, z, seed, n - 1);
      DampedBound(ValueNoise(OctaveCoord(x, n - 1), OctaveCoord(z, n - 1), OctaveSeed(seed, n - 1)), n - 1);
    }
  }

  lemma ScaledNoiseBound(v: real, a: real)
    requires -1.0 <= v <= 1.0 && a > 0.0
    ensures -a <= v * a <= a
  {
    assert a - v * a == (1.0 - v) * a;
    assert v * a + a == (v + 1.0) * a;
    MulNonNegative(1.0 - v, a);
    MulNonNegative(v + 1.0, a);
  }

  lemma FiveOctaveAmplitudeSum()
    ensures AmplitudeSum(FbmOctaves) == 31.0 / 32.0
  {
    AmplitudeSumClosedForm(5);
    assert Pow(0.5, 1) == 0.5;
    assert Pow(0.5, 2) == 0.25;
    assert Pow(0.5, 3) == 0.125;
    assert Pow(0.5, 4) == 0.0625;
    assert Pow(0.5, 5) == 0.03125;
  }

  /** fBm normalised by the amplitude sum: the value `fbm(x, z, seed)` returns. */
  function FbmValue(x: real, z: real, seed: int): (r: real)
    ensures -1.0 <= r <= 1.0
  {
    FiveOctaveAmplitudeSum();
    OctaveSumBound(x, z, seed, FbmOctaves);
    NormalisedBound(OctaveSum(x, z, seed, FbmOctaves), AmplitudeSum(FbmOctaves));
    OctaveSum(x, z, seed, FbmOctaves) / AmplitudeSum(FbmOctaves)
  }

  lemma NormalisedBound(v: real, m: real)
    requires m > 0.0 && -m <= v <= m
    ensures -1.0 <= v / m <= 1.0
  {
  }

  /**
   * One pass of the fBm loop: with the running amplitude of octave i, adding
   * that octave's noise extends the sum by one octave.
   */
  lemma OctaveSumStep(x: real, z: real, seed: int, i: nat, noise: real, amplitude: real)
    requires noise == ValueNoise(OctaveCoord(x, i), OctaveCoord(z, i), OctaveSeed(seed, i))
    requires amplitude == Amplitude(i)
    ensures OctaveSum(x, z, seed, i) + noise * amplitude == OctaveSum(x, z, seed, i + 1)
  {
    DampedIsProduct(noise, i, amplitude);
  }

  /** The fBm loop of MapWarp.fbm, proved to compute FbmValue. */
  method Fbm(x: real, z: real, seed: int) returns (r: real)
    ensures r == FbmValue(x, z, seed)
    ensures -1.0 <= r <= 1.0
  {
    var value := 0.0;
    var amplitude := 0.5;
    var frequency := 1.0;
    var maxVal := 0.0;
    for i := 0 to FbmOctaves
      invariant value == OctaveSum(x, z, seed, i)
      invariant maxVal == AmplitudeSum(i)
      invariant amplitude == Amplitude(i)
      invariant frequency == Frequency(i)
    {
      OctaveCoordAt(x, i, frequency);
      OctaveCoordAt(z, i, frequency);
      var noise := ValueNoise(x * frequency, z * frequency, OctaveSeed(seed, i));
      OctaveSumStep(x, z, seed, i, noise, amplitude);
      value := value + noise * amplitude;
      maxVal := maxVal + amplitude;
      amplitude := amplitude * FbmPersistence;
      frequency := frequency * FbmLacunarity;
    }
    r := value / maxVal;
  }

  /** A warped map coordinate `{ mapX, mapZ }` in (fractional) pixels. */
  datatype MapCoord = MapCoord(mapX: real, mapZ: real)

  /** The unwarped pixel coordinate: `world / 56 + size / 2`. */
  function RawCoord(world: int, size: int): real {
    world as real / MapScale as real + size as real * 0.5
  }

  /** The second-pass fBm pair r, displacing the raw coordinate. */
  function SecondPass(rawX: real, rawZ: real): MapCoord {
    var px := rawX * FbmBaseFreq;
    var pz := rawZ * FbmBaseFreq;
    var qx := FbmValue(px, pz, Seed0);
    var qz := FbmValue(px + 5.2, pz + 1.3, Seed1);
    var rx := FbmValue(px + qx * Warp1Scale, pz + qz * Warp1Scale, Seed2);
    var rz := FbmValue(px + qx * Warp1Scale + 1.7, pz + qz * Warp1Scale + 9.2, Seed3);
    MapCoord(rx, rz)
  }

  /**
   * Warped pixel coordinates for a world block. The warp moves the raw
   * coordinate by at most Warp2Scale pixels along each axis.
   */
  function Warp(worldX: int, worldZ: int, imageWidth: int, imageHeight: int): (c: MapCoord)
    ensures Abs(c.mapX - RawCoord(worldX, imageWidth)) <= Warp2Scale
    ensures Abs(c.mapZ - RawCoord(worldZ, imageHeight)) <= Warp2Scale
  {
    var rawX := RawCoord(worldX, imageWidth);
    var rawZ := RawCoord(worldZ, imageHeight);
    var r := SecondPass(rawX, rawZ);
    ScaledNoiseBound(r.mapX, Warp2Scale);
    ScaledNoiseBound(r.mapZ, Warp2Scale);
    MapCoord(rawX + r.mapX * Warp2Scale, rawZ + r.mapZ * Warp2Scale)
  }
}
