/**
 * Two places where the shipped code does not do what its own comments and
 * evident intent ask for. Each is modelled here as written, with a lemma that
 * exhibits the consequence; the Ledger module uses the intended behaviour.
 */
module AsWritten {
  import opened Records
  import opened ProofOfWork
  import opened Validation

  /** The shipped validator: its body accepts every chain. */
  function ValidateChainStub(c: seq<Block>): (ok: bool)
    ensures ok
  {
    true
  }

  /** Fork choice as shipped: adopt any strictly longer candidate. */
  function AdoptsAsWritten(localLength: nat, candidate: seq<Block>): (adopt: bool)
    ensures adopt <==> |candidate| > localLength
  {
    ValidateChainStub(candidate) && |candidate| > localLength
  }

  /**
   * A candidate whose second block does not name the digest of the first is
   * adopted by the shipped fork choice over a one-block chain, though the
   * intended validator rejects it.
   */
  lemma StubAdoptsBrokenLink(hash: BlockHasher, d: int, candidate: seq<Block>)
    requires |candidate| >= 2
    requires candidate[1].previousHash != hash(candidate[0])
    ensures AdoptsAsWritten(1, candidate)
    ensures !ValidChain(hash, d, candidate)
  {
    assert !LinksTo(hash, d, candidate[0], candidate[1]);
  }

  /**
   * The previous hash that mining computes as shipped: the digest of the
   * printed accessor method, which names only the ledger object. It is the
   * same digest on every mining round, whatever the chain holds.
   */
  function PreviousHashAsWritten(accessorDigest: Digest, chain: seq<Block>): (h: Digest)
    ensures h == accessorDigest
  {
    accessorDigest
  }

  /**
   * Two consecutive blocks mined as shipped carry the same previous hash, so
   * the chain they extend fails validation unless the hasher gives the first
   * of them the digest of its own predecessor.
   */
  lemma ShippedMiningBreaksLinks(hash: BlockHasher, d: int, accessorDigest: Digest, c: seq<Block>, b1: Block, b2: Block)
    requires c != []
    requires b1.previousHash == PreviousHashAsWritten(accessorDigest, c)
    requires b2.previousHash == PreviousHashAsWritten(accessorDigest, c + [b1])
    requires hash(b1) != hash(c[|c| - 1])
    ensures !ValidChain(hash, d, c + [b1] + [b2])
  {
    var e := c + [b1] + [b2];
    assert e[|c| - 1] == c[|c| - 1] && e[|c|] == b1 && e[|c| + 1] == b2;
    if LinksTo(hash, d, e[|c| - 1], e[|c|]) {
      assert !LinksTo(hash, d, e[|c|], e[|c| + 1]);
    }
  }
}
