/**
 * Chain validation: every block passes the proof-of-work test, and every
 * block after the first names the digest of its predecessor.
 */
module Validation {
  import opened Records
  import opened ProofOfWork

  /** `b` extends a chain whose last block is `last`. */
  predicate LinksTo(hash: BlockHasher, d: int, last: Block, b: Block)
  {
    b.previousHash == hash(last) && MeetsTarget(hash(b), d)
  }

  /**
   * The check the validator's comments ask for: the digests chain together
   * and the proofs of work are valid, the first block's included.
   */
  predicate ValidChain(hash: BlockHasher, d: int, c: seq<Block>): (ok: bool)
    ensures ok ==> forall i | 0 <= i < |c| :: MeetsTarget(hash(c[i]), d)
    ensures ok ==> forall i | 1 <= i < |c| :: c[i].previousHash == hash(c[i - 1])
  {
    var ok := && (c != [] ==> MeetsTarget(hash(c[0]), d))
              && forall i | 1 <= i < |c| :: LinksTo(hash, d, c[i - 1], c[i]);
    if ok then LinkedBlocksPass(hash, d, c); ok else ok
  }

  /** In a chain whose first block passes and whose blocks link, every block passes. */
  lemma LinkedBlocksPass(hash: BlockHasher, d: int, c: seq<Block>)
    requires c != [] ==> MeetsTarget(hash(c[0]), d)
    requires forall i | 1 <= i < |c| :: LinksTo(hash, d, c[i - 1], c[i])
    ensures forall i | 0 <= i < |c| :: MeetsTarget(hash(c[i]), d)
  {
    forall i | 0 <= i < |c| ensures MeetsTarget(hash(c[i]), d) {
      if i > 0 {
        assert LinksTo(hash, d, c[i - 1], c[i]);
      }
    }
  }

  /** Appending keeps a chain valid exactly when the new block links to the old last block. */
  lemma ValidChainAppend(hash: BlockHasher, d: int, c: seq<Block>, b: Block)
    requires c != []
    ensures ValidChain(hash, d, c + [b]) <==> ValidChain(hash, d, c) && LinksTo(hash, d, c[|c| - 1], b)
  {
    var e := c + [b];
    if ValidChain(hash, d, e) {
      assert e[0] == c[0];
      forall i | 1 <= i < |c| ensures LinksTo(hash, d, c[i - 1], c[i]) {
        assert e[i - 1] == c[i - 1] && e[i] == c[i];
      }
      assert e[|c| - 1] == c[|c| - 1];
      assert LinksTo(hash, d, e[|c| - 1], e[|c|]);
    }
  }

  /** Every prefix of a valid chain is valid. */
  lemma ValidChainPrefix(hash: BlockHasher, d: int, c: seq<Block>, k: nat)
    requires k <= |c|
    requires ValidChain(hash, d, c)
    ensures ValidChain(hash, d, c[..k])
  {
    if k > 0 {
      assert c[..k][0] == c[0];
    }
    forall i | 1 <= i < k ensures LinksTo(hash, d, c[..k][i - 1], c[..k][i]) {
      assert c[..k][i - 1] == c[i - 1];
    }
  }

  /**
   * Replacing block `i` of a valid chain by `b` leaves it valid exactly when
   * `b` links to its predecessor (or, as the first block, passes the
   * proof-of-work test) and, unless `b` is last,
   * `b` has the same digest as the block it replaces. Since the successor
   * names that digest, any other change to a non-final block is detected
   * unless the hasher collides.
   */
  lemma ReplaceBlock(hash: BlockHasher, d: int, c: seq<Block>, i: nat, b: Block)
    requires i < |c|
    requires ValidChain(hash, d, c)
    ensures ValidChain(hash, d, c[i := b]) <==>
              (i == 0 ==> MeetsTarget(hash(b), d)) && (i > 0 ==> LinksTo(hash, d, c[i - 1], b)) && (i + 1 < |c| ==> hash(b) == hash(c[i]))
  {
    var e := c[i := b];
    if ValidChain(hash, d, e) {
      if i == 0 {
        assert MeetsTarget(hash(e[0]), d);
      }
      if i > 0 {
        assert LinksTo(hash, d, e[i - 1], e[i]);
      }
      if i + 1 < |c| {
        assert LinksTo(hash, d, e[i], e[i + 1]);
      }
    }
    if (i == 0 ==> MeetsTarget(hash(b), d)) && (i > 0 ==> LinksTo(hash, d, c[i - 1], b)) && (i + 1 < |c| ==> hash(b) == hash(c[i])) {
      assert MeetsTarget(hash(e[0]), d);
      forall j | 1 <= j < |e| ensures LinksTo(hash, d, e[j - 1], e[j]) {
        assert LinksTo(hash, d, c[j - 1], c[j]);
        if j == i + 1 {
          assert e[j - 1] == b && e[j] == c[j];
        } else if j != i {
          assert e[j - 1] == c[j - 1] && e[j] == c[j];
        }
      }
    }
  }
}
