/** Verifiable prize selection: the 72-byte hash preimage, the mod-100 draw
    and the weighted walk over the probability vector
    (`get_verifiable_random_value`). */
module Selection {
  import opened Bytes

  /** SHA-256 (`arch_program::hash::hash`). Every member that hashes takes it
      as a parameter and holds for every such function, so nothing about
      SHA-256 is assumed beyond its 32-byte output. */
  type Hasher = seq<u8> -> Bytes32

  const USIZE_MAX: nat := 0xFFFF_FFFF_FFFF_FFFF

  /** The hashed buffer: block hash, then user secret, then the slot as
      8 little-endian bytes. */
  function Preimage(slot: u64, blockHash: Bytes32, userSecret: Bytes32): (r: seq<u8>)
    ensures |r| == 72
    ensures r[..32] == blockHash && r[32..64] == userSecret
    ensures U64FromLeBytes(r[64..]) == slot
  {
    var r := blockHash + userSecret + ToLeBytes(slot);
    assert r[64..] == ToLeBytes(slot);
    r
  }

  /** The first 8 digest bytes read as a little-endian `u64`, reduced mod 100. */
  function Draw(digest: Bytes32): (r: nat)
    ensures r < 100
    ensures r == FromLe(digest[..8]) % 100 && FromLe(digest[..8]) < TWO_TO_64
  {
    U64FromLeBytes(digest[..8]) % 100
  }

  /** The mathematical sum of the first k weights. */
  function PrefixSum(p: seq<u8>, k: nat): nat
    requires k <= |p|
  {
    if k == 0 then 0 else PrefixSum(p, k - 1) + p[k - 1]
  }

  /** The sum of all weights. */
  function Sum(p: seq<u8>): nat {
    PrefixSum(p, |p|)
  }

  lemma ModAddStep(a: nat, b: nat)
    ensures (a % 256 + b) % 256 == (a + b) % 256
  {
  }

  /** The first k weights added as `u8`, wrapping on overflow: both the
      `cumulative` running total of the selection loop and the
      `iter().sum::<u8>()` of initialize. It is the true sum modulo 256. */
  function WrappingSumU8(p: seq<u8>, k: nat): (r: u8)
    requires k <= |p|
    ensures r == PrefixSum(p, k) % 256
  {
    if k == 0 then 0
    else
      ModAddStep(PrefixSum(p, k - 1), p[k - 1]);
      (WrappingSumU8(p, k - 1) + p[k - 1]) % 256
  }

  /** `probabilities.len() - 1` as a `usize` subtraction: it wraps to
      `usize::MAX` on an empty vector. */
  function Fallback(len: nat): (r: nat)
    ensures len <= TWO_TO_64 ==> r == (len - 1) % TWO_TO_64
    ensures len > 0 ==> r < len
  {
    if len > 0 then len - 1 else USIZE_MAX
  }

  /** An index whose running total is the first to exceed the draw. */
  ghost predicate IsLeastHit(draw: nat, p: seq<u8>, i: nat) {
    && i < |p|
    && draw < WrappingSumU8(p, i + 1)
    && forall k :: 1 <= k <= i ==> WrappingSumU8(p, k) <= draw
  }

  /** No running total ever exceeds the draw. */
  ghost predicate NoHit(draw: nat, p: seq<u8>) {
    forall k :: 1 <= k <= |p| ==> WrappingSumU8(p, k) <= draw
  }

  /** The index the walk returns when it resumes at index k: either an index
      from k on or the fallback, and, when no running total up to k exceeds
      the draw, the least hit or the fallback after no hit at all. */
  function SelectFrom(draw: nat, p: seq<u8>, k: nat): (r: nat)
    requires k <= |p|
    ensures (k <= r < |p|) || r == Fallback(|p|)
    ensures (forall m :: 1 <= m <= k ==> WrappingSumU8(p, m) <= draw)
            ==> IsLeastHit(draw, p, r) || (NoHit(draw, p) && r == Fallback(|p|))
    decreases |p| - k
  {
    if k == |p| then Fallback(|p|)
    else if draw < WrappingSumU8(p, k + 1) then k
    else SelectFrom(draw, p, k + 1)
  }

  /** The selection rule: the index selected for a draw is the first whose
      running total strictly exceeds the draw, or the fallback when there is
      none. */
  function SelectIndex(draw: nat, p: seq<u8>): (r: nat)
    ensures IsLeastHit(draw, p, r) || (NoHit(draw, p) && r == Fallback(|p|))
  {
    SelectFrom(draw, p, 0)
  }

  /** On a non-empty vector the selected index is in range. */
  lemma SelectIndexInRange(draw: nat, p: seq<u8>)
    requires |p| > 0
    ensures SelectIndex(draw, p) < |p|
  {
  }

  lemma {:induction false} PrefixSumMonotone(p: seq<u8>, j: nat, k: nat)
    requires j <= k <= |p|
    ensures PrefixSum(p, j) <= PrefixSum(p, k)
    decreases k - j
  {
    if j < k {
      PrefixSumMonotone(p, j, k - 1);
    }
  }

  /** When the weights sum to 100 and the draw is below 100, the walk never
      wraps and never falls back: the selected index i is the least one with
      draw < PrefixSum(i + 1), the draw lies in [PrefixSum(i), PrefixSum(i + 1)),
      and i has a non-zero weight. */
  lemma SelectIndexWhenWeightsSumTo100(draw: nat, p: seq<u8>)
    requires Sum(p) == 100 && draw < 100
    ensures var i := SelectIndex(draw, p);
      && i < |p|
      && IsLeastHit(draw, p, i)
      && PrefixSum(p, i) <= draw < PrefixSum(p, i + 1)
      && p[i] > 0
      && forall k :: 1 <= k <= i ==> !(draw < PrefixSum(p, k))
  {
    assert |p| > 0;
    forall k | 0 <= k <= |p|
      ensures WrappingSumU8(p, k) == PrefixSum(p, k)
    {
      PrefixSumMonotone(p, k, |p|);
    }
    assert WrappingSumU8(p, |p|) == 100;
    assert !NoHit(draw, p) by {
      assert WrappingSumU8(p, |p|) > draw;
    }
    var i := SelectIndex(draw, p);
    if i > 0 {
      assert WrappingSumU8(p, i) <= draw;
    }
  }

  /** `copy_from_slice` of src into dst[start..start + |src|]. */
  method CopyFromSlice(dst: array<u8>, start: nat, src: seq<u8>)
    requires start + |src| <= dst.Length
    modifies dst
    ensures forall i :: start <= i < start + |src| ==> dst[i] == src[i - start]
    ensures forall i :: 0 <= i < dst.Length && !(start <= i < start + |src|) ==> dst[i] == old(dst[i])
  {
    forall i | start <= i < start + |src| {
      dst[i] := src[i - start];
    }
  }

  /** `get_verifiable_random_value`: the digest is the hash of the preimage
      and the index is the one the selection rule picks for its draw. */
  method GetVerifiableRandomValue(hash: Hasher, slot: u64, blockHash: Bytes32,
                                  userSecret: Bytes32, probabilities: seq<u8>)
    returns (index: nat, finalHash: Bytes32)
    ensures finalHash == hash(Preimage(slot, blockHash, userSecret))
    ensures index == SelectIndex(Draw(finalHash), probabilities)
  {
    var combined := new u8[72];
    CopyFromSlice(combined, 0, blockHash);
    CopyFromSlice(combined, 32, userSecret);
    CopyFromSlice(combined, 64, ToLeBytes(slot));
    assert combined[..] == Preimage(slot, blockHash, userSecret);

    finalHash := hash(combined[..]);
    var randomBytes := finalHash[0..8];
    var randomNumber := U64FromLeBytes(randomBytes) % 100;

    var cumulative: u8 := 0;
    for i := 0 to |probabilities|
      invariant cumulative == WrappingSumU8(probabilities, i)
      invariant SelectFrom(randomNumber, probabilities, i) == SelectIndex(randomNumber, probabilities)
    {
      cumulative := (cumulative + probabilities[i]) % 256;
      if randomNumber < cumulative {
        return i, finalHash;
      }
    }
    index := Fallback(|probabilities|);
  }
}
