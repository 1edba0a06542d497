/**
 * Integer arithmetic shared by the reflection-probe and hero-probe managers:
 * the size of the mip chain, the resolution of each mip level, and the layer
 * of a cube-map array that a (cube, face) pair addresses.
 */
module CubeArrays {

  /** Faces of a cube map. */
  const FACES: nat := 6

  function Pow2(n: nat): (r: nat)
    ensures r >= 1
  {
    if n == 0 then 1 else 2 * Pow2(n - 1)
  }

  function Pow4(n: nat): (r: nat)
    ensures r >= 1
  {
    if n == 0 then 1 else 4 * Pow4(n - 1)
  }

  lemma {:induction false} Pow2Squared(n: nat)
    ensures Pow2(n) * Pow2(n) == Pow4(n)
  {
    if n > 0 {
      Pow2Squared(n - 1);
      assert Pow2(n) * Pow2(n) == 4 * (Pow2(n - 1) * Pow2(n - 1));
    }
  }

  /** The largest `k` with `4^k <= n`. */
  function Log4Floor(n: nat): (k: nat)
    requires n >= 1
    ensures Pow4(k) <= n < Pow4(k + 1)
  {
    if n < 4 then 0 else 1 + Log4Floor(n / 4)
  }

  /**
   * `(U32)(log2((F32)res) + 0.5f)`: log2 of the resolution rounded to the
   * nearest integer. `k` is that value exactly when
   * `2^(k - 1/2) <= res < 2^(k + 1/2)`, that is `4^k <= 2 * res * res < 4^(k+1)`
   * (an integer `res` never lies exactly halfway, at `2^(k - 1/2)`, so
   * rounding has no ties); floating-point error in `log2` is not modelled.
   */
  function MipCount(res: nat): (k: nat)
    requires res >= 1
    ensures Pow4(k) <= 2 * (res * res) < Pow4(k + 1)
  {
    Log4Floor(2 * (res * res))
  }

  /** `Log4Floor` is the only `k` bracketing `n` between `4^k` and `4^(k+1)`. */
  lemma {:induction false} Log4FloorUnique(n: nat, k: nat)
    requires Pow4(k) <= n < Pow4(k + 1)
    ensures Log4Floor(n) == k
  {
    if k > 0 {
      assert Pow4(k) == 4 * Pow4(k - 1);
      assert Pow4(k + 1) == 4 * Pow4(k);
      Log4FloorUnique(n / 4, k - 1);
    }
  }

  /** For a power-of-two resolution the chain has exactly log2(res) levels. */
  lemma MipCountOfPowerOfTwo(n: nat)
    ensures MipCount(Pow2(n)) == n
  {
    Pow2Squared(n);
    assert Pow4(n + 1) == 4 * Pow4(n);
    Log4FloorUnique(2 * Pow4(n), n);
  }

  /** `res` halved `i` times with integer division (`res >> i`). */
  function LevelResolution(res: nat, i: nat): nat {
    if i == 0 then res else LevelResolution(res, i - 1) / 2
  }

  /** Halving `i + 1` times is halving once and then `i` times. */
  lemma {:induction false} HalveFirst(res: nat, i: nat)
    ensures LevelResolution(res, i + 1) == LevelResolution(res / 2, i)
  {
    if i > 0 { HalveFirst(res, i - 1); }
  }

  /**
   * Allocation of a mip chain: `count = log2(res)` rounded, then one render
   * target per level with the resolution halved after each level.
   */
  method BuildMipChain(res: nat) returns (chain: seq<nat>)
    requires res >= 1
    ensures |chain| == MipCount(res)
    ensures forall i :: 0 <= i < |chain| ==> chain[i] == LevelResolution(res, i)
  {
    var count := MipCount(res);
    chain := [];
    var r := res;
    var i := 0;
    while i < count
      invariant 0 <= i <= count
      invariant |chain| == i
      invariant r == LevelResolution(res, i)
      invariant forall k {:trigger chain[k]} :: 0 <= k < i ==> chain[k] == LevelResolution(res, k)
    {
      chain := chain + [r];
      r := r / 2;
      i := i + 1;
    }
  }

  /**
   * Level of the cube-map array that chain entry `i` is copied to:
   * `i - (mMipChain.size() - mips)`; no copy is made when it is negative.
   */
  function MipCopyLevel(i: int, chainSize: int, mips: int): int {
    i - (chainSize - mips)
  }

  /**
   * With the chain sized by `MipCount(res)` and the super-sampled target at
   * `2 * res`, chain entry `i` is copied to level `i` of the array with the
   * halved size `(2 * res) >> (i + 1)`, which is level `i`'s own resolution.
   */
  lemma MipCopyMatchesLevel(res: nat, i: nat)
    requires res >= 1 && i < MipCount(res)
    ensures MipCopyLevel(i, MipCount(res), MipCount(res)) == i
    ensures LevelResolution(2 * res, i + 1) == LevelResolution(res, i)
  {
    HalveFirst(2 * res, i);
    assert (2 * res) / 2 == res;
  }

  /** Array layer addressed by face `face` of cube `cube` (`cube * 6 + face`). */
  function CubeLayer(cube: nat, face: nat): nat
    requires face < FACES
  {
    cube * FACES + face
  }

  /** Distinct (cube, face) pairs never share a layer, and `n` cubes fit in `6 * n` layers. */
  lemma CubeLayerInjective(c1: nat, f1: nat, c2: nat, f2: nat, n: nat)
    requires f1 < FACES && f2 < FACES
    ensures CubeLayer(c1, f1) == CubeLayer(c2, f2) <==> c1 == c2 && f1 == f2
    ensures c1 < n ==> CubeLayer(c1, f1) < FACES * n
  {
    if c1 < c2 {
      assert CubeLayer(c1, f1) < (c1 + 1) * FACES <= CubeLayer(c2, f2);
    } else if c2 < c1 {
      assert CubeLayer(c2, f2) < (c2 + 1) * FACES <= CubeLayer(c1, f1);
    }
    if c1 < n {
      assert (c1 + 1) * FACES <= n * FACES;
    }
  }
}
