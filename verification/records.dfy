/**
 * The value records of the ledger: transactions, blocks and the hex digest
 * that the block hasher produces.
 */
module Records {

  /** A transfer of `amount` from `sender` to `recipient`; no arithmetic is done on it. */
  datatype Transaction = Transaction(sender: string, recipient: string, amount: real)

  /**
   * A block: its position in the chain, the snapshot of transactions it
   * embeds, the nonce found by the proof-of-work search and the digest of
   * the block before it ("0" for the genesis block).
   */
  datatype Block = Block(index: int, transactions: seq<Transaction>, proof: int, previousHash: string)

  predicate IsHexDigit(c: char)
  {
    '0' <= c <= '9' || 'a' <= c <= 'f'
  }

  /** Length of a SHA-256 digest written as lower-case hex. */
  const DigestLength: nat := 64

  /** The digest consisting only of '0' characters. */
  const ZeroDigest: string := seq(DigestLength, _ => '0')

  /** What the block hasher returns: 64 lower-case hex characters. */
  type Digest = s: string | |s| == DigestLength && forall i | 0 <= i < |s| :: IsHexDigit(s[i])
    witness ZeroDigest

  /**
   * The hasher is SHA-256 over the printed form of a block. It is not
   * modelled: every operation that hashes takes it as a deterministic,
   * otherwise arbitrary function.
   */
  type BlockHasher = Block -> Digest

  /**
   * A transaction record with exactly the given fields.
   */
  function CreateTransaction(sender: string, recipient: string, amount: real): (t: Transaction)
    ensures t.sender == sender && t.recipient == recipient && t.amount == amount
  {
    Transaction(sender, recipient, amount)
  }

  /**
   * A block built from the given fields. The source copies the transaction
   * list so that later changes to the pending pool cannot reach the block;
   * with sequence values the block holds the list as it was at this call.
   */
  function CreateBlock(index: int, transactions: seq<Transaction>, proof: int, previousHash: string): (b: Block)
    ensures b.index == index && b.transactions == transactions
    ensures b.proof == proof && b.previousHash == previousHash
  {
    Block(index, transactions, proof, previousHash)
  }
}
