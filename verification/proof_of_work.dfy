/**
 * The proof-of-work predicate: the trailing `difficulty` characters of a
 * block's digest must all be '0'. The characters are selected the way a
 * Python slice `digest[-difficulty:]` selects them, so a difficulty of 0
 * selects the whole digest (not the empty string), a difficulty at or above
 * the digest length selects the whole digest, and a negative difficulty
 * drops that many leading characters.
 */
module ProofOfWork {
  import opened Records

  function Min(a: int, b: int): int { if a <= b then a else b }

  function Max(a: int, b: int): int { if a <= b then b else a }

  /** Where the slice `s[-d:]` starts in a string of length `len`. */
  function SuffixStart(len: nat, d: int): (k: nat)
    ensures k <= len
    ensures d > 0 ==> k == Max(0, len - d)
    ensures d <= 0 ==> k == Min(-d, len)
  {
    var start := -d;
    if start < 0 then (if len + start < 0 then 0 else len + start)
    else if start > len then len
    else start
  }

  /** The string the Python slice `s[-d:]` denotes. */
  function PySuffix(s: string, d: int): (r: string)
    ensures |r| <= |s| && r == s[|s| - |r|..]
    ensures 0 < d <= |s| ==> |r| == d
    ensures d == 0 || d >= |s| ==> r == s
    ensures d < 0 ==> |r| == Max(0, |s| + d)
  {
    s[SuffixStart(|s|, d)..]
  }

  predicate AllZeros(s: string)
  {
    forall i | 0 <= i < |s| :: s[i] == '0'
  }

  /**
   * The proof-of-work test on a digest at difficulty `d`. For a difficulty
   * from 1 to the digest length it asks that the last `d` characters be '0';
   * a difficulty at or below minus the digest length selects nothing and
   * always passes; every other difficulty needs at least the last character
   * to be '0'.
   */
  predicate MeetsTarget(digest: Digest, d: int): (ok: bool)
    ensures 0 < d <= DigestLength ==> (ok <==> forall i | DigestLength - d <= i < DigestLength :: digest[i] == '0')
    ensures d + DigestLength <= 0 ==> ok
    ensures ok && 0 < d + DigestLength ==> digest[DigestLength - 1] == '0'
  {
    AllZeros(PySuffix(digest, d))
  }

  /** The number of '0' characters that end `s`. */
  function TrailingZeros(s: string): (n: nat)
    ensures n <= |s|
    ensures AllZeros(s[|s| - n..])
    ensures n < |s| ==> s[|s| - n - 1] != '0'
  {
    if s == [] || s[|s| - 1] != '0' then 0
    else 1 + TrailingZeros(s[..|s| - 1])
  }

  /**
   * How many trailing '0' characters a digest needs at difficulty `d`.
   */
  function RequiredZeros(d: int): (n: nat)
    ensures n <= DigestLength
  {
    if d == 0 || d >= DigestLength then DigestLength
    else if d > 0 then d
    else Max(0, DigestLength + d)
  }

  lemma {:induction false} AllZerosSuffixIff(s: string, w: nat)
    requires w <= |s|
    ensures AllZeros(s[|s| - w..]) <==> TrailingZeros(s) >= w
  {
    var n := TrailingZeros(s);
    if n >= w {
      var t, u := s[|s| - w..], s[|s| - n..];
      forall i | 0 <= i < |t| ensures t[i] == '0' {
        assert t[i] == u[n - w + i];
      }
    } else {
      assert s[|s| - w..][w - n - 1] == s[|s| - n - 1];
    }
  }

  /**
   * The slice test agrees with counting trailing zeros: a digest passes at
   * difficulty `d` exactly when it ends in `RequiredZeros(d)` zeros.
   */
  lemma MeetsTargetIffTrailingZeros(digest: Digest, d: int)
    ensures MeetsTarget(digest, d) <==> TrailingZeros(digest) >= RequiredZeros(d)
  {
    var r := PySuffix(digest, d);
    assert |r| == RequiredZeros(d);
    AllZerosSuffixIff(digest, |r|);
  }

  /**
   * At difficulty 0 the slice is the whole digest, so exactly one digest
   * passes: the all-zero one.
   */
  lemma ZeroDifficultyNeedsZeroDigest(digest: Digest)
    ensures MeetsTarget(digest, 0) <==> digest == ZeroDigest
  {
    if MeetsTarget(digest, 0) {
      assert forall i | 0 <= i < |digest| :: digest[i] == ZeroDigest[i];
    }
  }

  /** Any difficulty at or above the digest length behaves like difficulty 0. */
  lemma SaturatedDifficulty(digest: Digest, d: int)
    requires d >= DigestLength
    ensures MeetsTarget(digest, d) <==> MeetsTarget(digest, 0)
  {
    MeetsTargetIffTrailingZeros(digest, d);
    MeetsTargetIffTrailingZeros(digest, 0);
  }

  /** Among positive difficulties, a digest that passes a higher one passes every lower one. */
  lemma HigherDifficultyImpliesLower(digest: Digest, lower: int, higher: int)
    requires 1 <= lower <= higher
    ensures MeetsTarget(digest, higher) ==> MeetsTarget(digest, lower)
  {
    MeetsTargetIffTrailingZeros(digest, lower);
    MeetsTargetIffTrailingZeros(digest, higher);
  }

  /** The block with these fields and nonce `p` passes at difficulty `d`. */
  predicate PassesWithNonce(hash: BlockHasher, d: int, index: int, txs: seq<Transaction>, prev: string, p: int)
  {
    MeetsTarget(hash(Block(index, txs, p, prev)), d)
  }

  /** Some nonce `p >= 0` makes the block with these fields pass. */
  ghost predicate NonceExists(hash: BlockHasher, d: int, index: int, txs: seq<Transaction>, prev: string)
  {
    exists p: nat :: PassesWithNonce(hash, d, index, txs, prev, p)
  }

  /**
   * `b` is what a nonce search from 0 upward stops at: it passes, and the
   * same block with any smaller non-negative nonce does not.
   */
  ghost predicate LeastPassingNonce(hash: BlockHasher, d: int, b: Block)
  {
    && b.proof >= 0
    && MeetsTarget(hash(b), d)
    && forall q: nat | q < b.proof :: !PassesWithNonce(hash, d, b.index, b.transactions, b.previousHash, q)
  }

  /**
   * The search result is determined by the other fields: two blocks that
   * differ at most in their nonce and are both least passing are equal.
   */
  lemma LeastPassingNonceUnique(hash: BlockHasher, d: int, b1: Block, b2: Block)
    requires b1.index == b2.index && b1.transactions == b2.transactions
    requires b1.previousHash == b2.previousHash
    requires LeastPassingNonce(hash, d, b1) && LeastPassingNonce(hash, d, b2)
    ensures b1 == b2
  {
    assert PassesWithNonce(hash, d, b1.index, b1.transactions, b1.previousHash, b1.proof);
    assert PassesWithNonce(hash, d, b2.index, b2.transactions, b2.previousHash, b2.proof);
  }
}
