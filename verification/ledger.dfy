/**
 * The ledger: a chain of blocks and a pool of pending transactions that
 * its operations update in place.
 */
module Ledger {
  import opened Records
  import opened ProofOfWork
  import opened Validation

  /** The sender recorded on mining-reward transactions. */
  const RewardSender: string := "Server"

  class Blockchain {
    /** The miner's address, credited by every reward transaction. */
    const address: string
    /** How many trailing '0' digest characters a proof of work needs (see ProofOfWork). */
    const difficultyNumber: int
    const miningReward: real
    /** SHA-256 over the printed block; an arbitrary deterministic function here. */
    const hashBlock: BlockHasher

    var chain: seq<Block>
    var currentTransactions: seq<Transaction>

    /** The chain is never empty once the ledger exists. */
    ghost predicate Valid()
      reads this
    {
      chain != []
    }

    /** The reward transaction that `Mine` puts at the front of the pool. */
    function Reward(): (t: Transaction)
      ensures t.sender == RewardSender && t.recipient == address && t.amount == miningReward
    {
      CreateTransaction(RewardSender, address, miningReward)
    }

    /**
     * Creates the ledger with its genesis block: index 1, no transactions,
     * previous hash "0", and the least non-negative nonce that passes the
     * proof-of-work test. The search from 0 upward stops only if such a nonce
     * exists, which is required here.
     */
    constructor (address: string, difficultyNumber: int, miningReward: real, hashBlock: BlockHasher)
      requires NonceExists(hashBlock, difficultyNumber, 1, [], "0")
      ensures this.address == address && this.difficultyNumber == difficultyNumber
      ensures this.miningReward == miningReward && this.hashBlock == hashBlock
      ensures Valid()
      ensures |chain| == 1
      ensures chain[0].index == 1 && chain[0].transactions == [] && chain[0].previousHash == "0"
      ensures LeastPassingNonce(hashBlock, difficultyNumber, chain[0])
      ensures currentTransactions == []
      ensures ValidChain(hashBlock, difficultyNumber, chain)
    {
      this.address := address;
      this.difficultyNumber := difficultyNumber;
      this.miningReward := miningReward;
      this.hashBlock := hashBlock;
      chain := [];
      currentTransactions := [];
      new;
      ghost var w: nat :| PassesWithNonce(hashBlock, difficultyNumber, 1, [], "0", w);
      var firstBlock := CreateBlock(1, [], 0, "0");
      var ok := CheckProof(firstBlock);
      while !ok
        invariant firstBlock == Block(1, [], firstBlock.proof, "0")
        invariant 0 <= firstBlock.proof <= w
        invariant chain == [] && currentTransactions == []
        invariant ok <==> PassesWithNonce(hashBlock, difficultyNumber, 1, [], "0", firstBlock.proof)
        invariant forall q: nat | q < firstBlock.proof :: !PassesWithNonce(hashBlock, difficultyNumber, 1, [], "0", q)
        decreases w - firstBlock.proof
      {
        firstBlock := firstBlock.(proof := firstBlock.proof + 1);
        ok := CheckProof(firstBlock);
      }
      chain := chain + [firstBlock];
    }

    /** The pending pool, not yet embedded in any block. */
    function GetTransactions(): (txs: seq<Transaction>)
      reads this
      ensures txs == currentTransactions
    {
      currentTransactions
    }

    /** The last block of the chain. */
    function CurrentBlock(): (b: Block)
      reads this
      requires chain != []
      ensures chain == chain[..|chain| - 1] + [b]
    {
      chain[|chain| - 1]
    }

    function GetLength(): (n: nat)
      reads this
      ensures n == |chain|
    {
      |chain|
    }

    /** The index the next mined block receives: one past the number of blocks. */
    function NextIndex(): (n: int)
      reads this
      ensures n == GetLength() + 1
    {
      |chain| + 1
    }

    /** Queues a transaction at the end of the pending pool. */
    method AddTransaction(sender: string, recipient: string, amount: real)
      requires Valid()
      modifies this
      ensures Valid()
      ensures currentTransactions == old(currentTransactions) + [Transaction(sender, recipient, amount)]
      ensures chain == old(chain)
    {
      currentTransactions := currentTransactions + [Transaction(sender, recipient, amount)];
    }

    /**
     * Appends `block` when it passes the proof-of-work test and otherwise
     * leaves the chain alone. Its link to the last block is not checked.
     */
    method AddBlock(block: Block)
      requires Valid()
      modifies this
      ensures Valid()
      ensures chain == if MeetsTarget(hashBlock(block), difficultyNumber) then old(chain) + [block] else old(chain)
      ensures currentTransactions == old(currentTransactions)
    {
      var ok := CheckProof(block);
      if ok {
        chain := chain + [block];
      }
    }

    /**
     * The proof-of-work test on `block`: scans the characters that the slice
     * `digest[-difficultyNumber:]` selects and fails at the first one that
     * is not '0'.
     */
    method CheckProof(block: Block) returns (ok: bool)
      ensures ok <==> MeetsTarget(hashBlock(block), difficultyNumber)
    {
      var hashblock := hashBlock(block);
      var last := PySuffix(hashblock, difficultyNumber);
      for i := 0 to |last|
        invariant AllZeros(last[..i])
      {
        if last[i] != '0' {
          return false;
        }
      }
      assert last[..|last|] == last;
      return true;
    }

    /**
     * The nonce search of `Mine`: tries the candidate with nonces 0, 1, 2, ...
     * (same index, transaction snapshot and previous hash every time) and
     * returns the first candidate that passes. It stops only if some nonce
     * passes, which is required here.
     */
    method SearchNonce(index: int, txs: seq<Transaction>, oldHash: string) returns (testBlock: Block)
      requires NonceExists(hashBlock, difficultyNumber, index, txs, oldHash)
      ensures testBlock.index == index && testBlock.transactions == txs && testBlock.previousHash == oldHash
      ensures LeastPassingNonce(hashBlock, difficultyNumber, testBlock)
    {
      ghost var w: nat :| PassesWithNonce(hashBlock, difficultyNumber, index, txs, oldHash, w);
      var proofGuess := 0;
      while true
        invariant 0 <= proofGuess <= w
        invariant forall q: nat | q < proofGuess :: !PassesWithNonce(hashBlock, difficultyNumber, index, txs, oldHash, q)
        decreases w - proofGuess
      {
        testBlock := CreateBlock(index, txs, proofGuess, oldHash);
        var ok := CheckProof(testBlock);
        if ok {
          return;
        }
        proofGuess := proofGuess + 1;
      }
    }

    /**
     * Mines one block: puts the reward at the front of the pool, captures
     * the digest of the last block, searches nonces from 0 upward until the
     * candidate passes, appends it and empties the pool. The search stops
     * only if some nonce passes, which is required here.
     */
    method Mine()
      requires Valid()
      requires NonceExists(hashBlock, difficultyNumber, |chain| + 1, [Reward()] + currentTransactions, hashBlock(CurrentBlock()))
      modifies this
      ensures Valid()
      ensures |chain| == |old(chain)| + 1
      ensures chain[..|old(chain)|] == old(chain)
      ensures var b := chain[|chain| - 1];
        && b.index == |old(chain)| + 1
        && b.transactions == [Reward()] + old(currentTransactions)
        && b.previousHash == hashBlock(old(chain)[|old(chain)| - 1])
        && LeastPassingNonce(hashBlock, difficultyNumber, b)
      ensures currentTransactions == []
      ensures old(ValidChain(hashBlock, difficultyNumber, chain)) ==> ValidChain(hashBlock, difficultyNumber, chain)
    {
      var reward := CreateTransaction(RewardSender, address, miningReward);
      currentTransactions := [reward] + currentTransactions;
      // The source hashes the accessor method object itself here rather than
      // the block it returns; the model hashes the last block, as intended.
      var oldHash := hashBlock(CurrentBlock());

      var testBlock := SearchNonce(NextIndex(), currentTransactions, oldHash);
      AddBlock(testBlock);
      currentTransactions := [];
      ValidChainAppend(hashBlock, difficultyNumber, old(chain), testBlock);
    }

    /**
     * Fork choice: adopts `candidate` when it is valid and strictly longer
     * than the local chain, and reports whether it did. The pending pool is
     * left as it is either way.
     */
    method ReceiveChain(candidate: seq<Block>) returns (replaced: bool)
      requires Valid()
      modifies this
      ensures Valid()
      ensures replaced <==> ValidChain(hashBlock, difficultyNumber, candidate) && |candidate| > |old(chain)|
      ensures chain == if replaced then candidate else old(chain)
      ensures currentTransactions == old(currentTransactions)
    {
      if ValidChain(hashBlock, difficultyNumber, candidate) && |candidate| > GetLength() {
        chain := candidate;
        return true;
      }
      return false;
    }
  }
}
