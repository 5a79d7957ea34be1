/**
 * The composite-key hash shared by both revisions of the container: a left-to-right
 * fold of the boost-style combiner over the per-component hashes, starting from seed 0.
 * `size_t` is a 64-bit unsigned word, so the additions wrap and the shifts drop bits.
 */
module KeyHash {

  /** The odd constant added at every step (the reciprocal of the golden ratio, 32 bits). */
  const GoldenRatio: bv64 := 0x9e3779b9

  /** One mixing step: `seed ^= h + 0x9e3779b9 + (seed << 6) + (seed >> 2)`. */
  function HashCombine(seed: bv64, h: bv64): bv64 {
    seed ^ (h + GoldenRatio + (seed << 6) + (seed >> 2))
  }

  /** Reference definition: the plain left fold of the combiner over a sequence of hashes. */
  function LeftFold(seed: bv64, hs: seq<bv64>): bv64
    decreases |hs|
  {
    if hs == [] then seed else LeftFold(HashCombine(seed, hs[0]), hs[1..])
  }

  lemma {:induction false} LeftFoldSnoc(seed: bv64, hs: seq<bv64>, h: bv64)
    ensures LeftFold(seed, hs + [h]) == HashCombine(LeftFold(seed, hs), h)
    decreases |hs|
  {
    if hs == [] {
      assert [h][1..] == [];
    } else {
      assert (hs + [h])[1..] == hs[1..] + [h];
      LeftFoldSnoc(HashCombine(seed, hs[0]), hs[1..], h);
    }
  }

  /**
   * The compile-time recursion over tuple indices: first fold components 0..index-1 into
   * the seed, then combine component `index`. `hs` holds the per-component hashes. The
   * recursion computes exactly the left fold over components 0..index.
   */
  function CombineUpTo(seed: bv64, hs: seq<bv64>, index: nat): (r: bv64)
    requires index < |hs|
    ensures r == LeftFold(seed, hs[..index + 1])
    decreases index
  {
    if index == 0 then
      assert hs[..1] == [hs[0]];
      assert [hs[0]][1..] == [];
      HashCombine(seed, hs[0])
    else
      var prefix := CombineUpTo(seed, hs, index - 1);
      assert hs[..index + 1] == hs[..index] + [hs[index]];
      LeftFoldSnoc(seed, hs[..index], hs[index]);
      HashCombine(prefix, hs[index])
  }

  /** The hash of a whole tuple: the fold over all its components from seed 0. */
  function TupleHash(hs: seq<bv64>): (r: bv64)
    requires |hs| > 0
    ensures r == LeftFold(0, hs)
  {
    assert hs[..|hs|] == hs;
    CombineUpTo(0, hs, |hs| - 1)
  }

  /** The hash of a two-property key, from the per-dimension hashes of its values. */
  function PairHash<P0, P1>(hash0: P0 -> bv64, hash1: P1 -> bv64, k: (P0, P1)): (r: bv64)
    ensures r == HashCombine(HashCombine(0, hash0(k.0)), hash1(k.1))
  {
    assert [hash0(k.0), hash1(k.1)][1..][1..] == [];
    TupleHash([hash0(k.0), hash1(k.1)])
  }

  /** From seed 0 the shifts contribute nothing: the first step is the wrapping sum alone. */
  lemma FirstStepFromZero(h: bv64)
    ensures HashCombine(0, h) == h + GoldenRatio
  {
  }

  /** The addition wraps modulo 2^64 rather than saturating. */
  lemma FirstStepWraps()
    ensures HashCombine(0, 0xffff_ffff_ffff_ffff) == 0x9e3779b8
  {
  }
}
