# Blockchain ledger engine: a Dafny model

This project models the ledger engine of a small proof-of-work blockchain
node (`blockchain.py`). A `Blockchain` holds a chain of blocks and a pool of
pending transactions. It can:

- create a genesis block by a nonce search;
- queue transactions;
- append blocks that pass the proof-of-work test;
- mine a new block, which rewards the miner and empties the pool;
- replace its chain with a longer valid one received from a peer (fork choice).

Modules:

- `Records` (records.dfy) holds the `Transaction` and `Block` value records,
  the `Digest` type (64 lower-case hex characters) and the `BlockHasher`
  type. The hasher (`hash_block`, SHA-256 over the printed block) is
  not modelled. The ledger takes it as a constructor parameter, as a
  deterministic but otherwise arbitrary function.
- `ProofOfWork` (proof_of_work.dfy) holds the proof-of-work test
  `MeetsTarget`. It selects digest characters the way the Python slice
  `digest[-difficulty:]` does, for every integer difficulty. A reference
  definition counts trailing zeros, and lemmas relate the two and state the
  edge cases.
- `Validation` (validation.dfy) holds `ValidChain`, the chain check that the
  validator's comments ask for. Every block, the first included, passes the
  proof-of-work test, and from the second block on each block names the
  digest of its predecessor. Lemmas cover appending, prefixes and
  tampering.
- `Ledger` (ledger.dfy) holds the class `Blockchain`. Its `chain` and
  `currentTransactions` fields are updated in place by its methods. The
  proof-of-work check is a method with the source's character loop. Both
  nonce searches (the constructor's loop, and `SearchNonce`, the loop of
  `mine`) are proved to stop at the least passing nonce.
- `AsWritten` (as_written.dfy) models the two defects listed under Findings
  exactly as the code is written.

Points of the code that the model keeps as they are:

- At difficulty 0 the slice `digest[-0:]` is the whole digest, so only the
  all-zero digest passes (`ProofOfWork.ZeroDifficultyNeedsZeroDigest`).
- The ledger accepts any integer difficulty, including ones at or above 64
  and negative ones.
- Mining empties the whole pending pool once the block is appended.

Two places follow the evident intent instead of the code (see Findings):

- the previous hash captured by `mine`;
- the chain validator.

## Model

| member | source | states |
|---|---|---|
| `Records.CreateTransaction` | blockchain.py:38-39 | the transaction carries exactly the given sender, recipient and amount |
| `Records.CreateBlock` | blockchain.py:35-36 | the block holds the given fields, and its transaction list is the one passed in at this call (a copy, unaffected by later changes to the pool) |
| `ProofOfWork.SuffixStart` | blockchain.py:66 | the start of the slice `s[-d:]` lies within the string: `len - d` clamped at 0 for positive `d`, and `-d` clamped at the length otherwise |
| `ProofOfWork.PySuffix` | blockchain.py:66 | the slice is a suffix of the digest; it has length `d` when `0 < d <= len`; it is the whole string when `d == 0` or `d >= len`; it drops `-d` leading characters when `d < 0` |
| `ProofOfWork.MeetsTarget` | blockchain.py:63-70 | the test `check_proof` computes, that the slice at line 66 is all '0': for a difficulty `d` from 1 to 64 it holds exactly when the last `d` digest characters are '0'; at `d <= -64` the slice is empty and it always holds; at any other difficulty it needs at least the last character to be '0' |
| `ProofOfWork.TrailingZeros` | blockchain.py:63-70 | the count is at most the length, the last that many characters are '0', and the character before them is not '0' |
| `ProofOfWork.RequiredZeros` | blockchain.py:66 | the number of trailing zeros demanded at a difficulty never exceeds the digest length |
| `ProofOfWork.AllZerosSuffixIff` | blockchain.py:67-70 | the last `w` characters are all '0' if and only if the string ends in at least `w` zeros |
| `ProofOfWork.MeetsTargetIffTrailingZeros` | blockchain.py:63-70 | the slice-and-scan test passes if and only if the digest ends in `RequiredZeros(d)` zeros |
| `ProofOfWork.ZeroDifficultyNeedsZeroDigest` | blockchain.py:66 | at difficulty 0 exactly one digest passes: the all-zero one |
| `ProofOfWork.SaturatedDifficulty` | blockchain.py:66 | every difficulty of 64 or more behaves exactly like difficulty 0 |
| `ProofOfWork.HigherDifficultyImpliesLower` | blockchain.py:63-70 | for positive difficulties, a digest that passes a higher difficulty passes every lower one |
| `ProofOfWork.LeastPassingNonceUnique` | blockchain.py:79-84 | the nonce search result is determined by the other fields: two least-passing blocks with the same index, transactions and previous hash are equal |
| `Validation.ValidChain` | blockchain.py:91-96 | the validator the comments at lines 92-95 ask for: a valid chain has every block passing the proof-of-work test, the first block included, and every block from the second on naming the digest of its predecessor |
| `Validation.LinkedBlocksPass` | blockchain.py:95 | when the first block passes and every later block links to its predecessor, every block of the chain passes the proof-of-work test |
| `Validation.ValidChainAppend` | blockchain.py:91-96 | appending a block keeps a chain valid if and only if the chain was valid and the block names the digest of the old last block and passes the proof-of-work test |
| `Validation.ValidChainPrefix` | blockchain.py:91-96 | every prefix of a valid chain is valid |
| `Validation.ReplaceBlock` | blockchain.py:91-96 | replacing one block of a valid chain keeps it valid if and only if the new block links to its predecessor (as the first block, passes the proof-of-work test) and, unless it is last, has the same digest as the block it replaces: tampering is detected unless the hasher collides |
| `Ledger.Blockchain.Reward` | blockchain.py:73-74 | the reward transaction is sent by "Server" to the miner's address for the mining reward |
| `Ledger.Blockchain.constructor` | blockchain.py:22-33 | the new ledger keeps its configuration, has an empty pool and exactly one block, with index 1, no transactions and previous hash "0", whose proof is the least non-negative nonce that passes the proof-of-work test; that one-block chain is valid |
| `Ledger.Blockchain.GetTransactions` | blockchain.py:41-42 | returns the pending pool |
| `Ledger.Blockchain.CurrentBlock` | blockchain.py:44-45 | the result is the last block: the chain is its other blocks followed by it |
| `Ledger.Blockchain.GetLength` | blockchain.py:53-54 | the result is the number of blocks in the chain |
| `Ledger.Blockchain.NextIndex` | blockchain.py:50-51 | the index of the next block is one past the chain length |
| `Ledger.Blockchain.AddTransaction` | blockchain.py:47-48 | the pool becomes the old pool followed by the new transaction; the chain is unchanged |
| `Ledger.Blockchain.AddBlock` | blockchain.py:56-58 | the block is appended as the new last element exactly when it passes the proof-of-work test, and otherwise the chain is unchanged; the pool is unchanged either way |
| `Ledger.Blockchain.CheckProof` | blockchain.py:63-70 | the character scan returns true exactly when the digest passes `MeetsTarget` at the ledger's difficulty |
| `Ledger.Blockchain.SearchNonce` | blockchain.py:79-84 | the search returns the candidate with the given index, transaction snapshot and previous hash whose nonce is the least non-negative one that passes the proof-of-work test |
| `Ledger.Blockchain.Mine` | blockchain.py:72-88 | the chain grows by exactly one block and earlier blocks are unchanged; the new block has index old length + 1, holds the reward followed by the old pool in order, and names the digest of the old last block; its proof is the least passing nonce; the pool is empty; a valid chain stays valid |
| `Ledger.Blockchain.ReceiveChain` | blockchain.py:98-103 | returns true and adopts the candidate if and only if the candidate is valid and strictly longer than the local chain; otherwise the chain is unchanged; the pool is never touched |
| `AsWritten.ValidateChainStub` | blockchain.py:91-96 | the shipped validator accepts every chain |
| `AsWritten.AdoptsAsWritten` | blockchain.py:100 | the shipped fork choice adopts a candidate exactly when it is longer, whatever it contains |
| `AsWritten.StubAdoptsBrokenLink` | blockchain.py:98-103 | once decoded, a candidate whose second block does not name the digest of the first is adopted by the shipped rule, though the intended validator rejects it (as shipped, line 99 raises `NameError` before this rule runs on any non-empty payload) |
| `AsWritten.PreviousHashAsWritten` | blockchain.py:77 | the previous hash computed as shipped is one fixed digest, whatever the chain holds |
| `AsWritten.ShippedMiningBreaksLinks` | blockchain.py:77-86 | two blocks mined in a row as shipped leave a chain that fails validation, unless the hasher gives the first of them the digest of its predecessor |

## Left out

- The real SHA-256 and Python's printed form of a block (blockchain.py:60-61) are not modelled. The hasher is an arbitrary deterministic function passed to the constructor, so collision resistance is not assumed either.
- Ledger.Blockchain.SearchNonce: requires that some nonce makes the candidate pass, for the same reason as `Mine`.
- Ledger.Blockchain.Mine: requires that some nonce makes the candidate pass. Without one the source loops forever, and a terminating model cannot express that.
- Ledger.Blockchain.constructor: requires that some nonce makes the genesis block pass, for the same reason.
- JSON decoding in `receive_chain` (`from_dict`, blockchain.py:99) is left out. That name is neither defined nor imported, so as shipped line 99 raises `NameError` for any non-empty payload before `validate_chain` runs. The model assumes a working decoder and takes the candidate as an already decoded sequence of blocks; the adoption shown by `AsWritten.StubAdoptsBrokenLink` presupposes that decoder.
- `amount` and `mining_reward` are modelled as `real`. In the program they are whatever value the caller passes: `mining_reward` has no annotation and node.py:128 passes the integer `10`, and the `float` annotation on `amount` (blockchain.py:10) is not enforced, so node.py:77 passes whatever JSON value the client sent. The printed block that is hashed (blockchain.py:61) writes `10` and `10.0` differently, so `real` merges amounts that the hasher's input tells apart, and it cannot hold non-numeric amounts. Since the hasher is arbitrary here and no arithmetic is done on the amounts, the choice matters nowhere else.
- Aliasing is not modelled, because blocks and lists are values here. `get_transactions` returns the live list and a caller could mutate it through that reference. The `copy.copy` in `create_block` protects a block from later pool changes; this holds automatically for values.
- Concurrency is left out: the model assumes no other call runs while `Mine` searches. Under a threaded server (node.py:131 serves `add_transaction` and `mine` on separate requests), `mine` re-reads the live pool at every search step (blockchain.py:81) and then rebinds it to an empty list (blockchain.py:88). A transaction added during the search then either enters the later candidate blocks or is lost at line 88; the model captures neither outcome. Cancellation of the search is left out too.
- node.py is not part of this model: HTTP routes, broadcast, argument parsing and the RSA signing sketch. The peer registry (`players`, `add_player`) that node.py calls does not exist in blockchain.py.
- Validation.ValidChain does not check that indices increase by one. The validator's comments ask only for chained digests and valid proofs.

## Findings

| source | as written | input that shows it | evidently intended | confidence | as-written member | corrected member |
|---|---|---|---|---|---|---|
| blockchain.py:91-96 | `validate_chain` returns `True` for every chain, so `receive_chain` adopts any strictly longer chain | a fresh one-block ledger receives a two-block chain whose second block's previous hash is not the digest of its first block; given a working decoder at line 99, it is adopted (as shipped, line 99 raises `NameError` for any non-empty payload, because `from_dict` is undefined, so nothing is adopted at all) | reject chains whose digests do not chain together or whose proofs of work fail, as the comments at lines 92-95 ask | not executed; high | `AsWritten.StubAdoptsBrokenLink` | `Ledger.Blockchain.ReceiveChain` |
| blockchain.py:77 | `hash_block(self.current_block)` hashes the printed bound accessor method, not the block it returns, so every mined block gets the same previous hash | two `mine()` calls in a row: both new blocks name the same digest, so the second does not name the digest of the first unless the hasher collides | `hash_block(self.current_block())`, the digest of the last block | not executed; high | `AsWritten.ShippedMiningBreaksLinks` | `Ledger.Blockchain.Mine` |
