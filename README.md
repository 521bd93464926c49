# bChain in Dafny

A Dafny model of the core of the `bChain` package of zhexiangzhang/BlockChain.
That package is a small proof-of-work blockchain written in Go and kept in a
badger key-value store.

The model covers three parts of the package:

- **Proof of work** (`bChain/proof.go`). The target `1 << (256 - Difficulty)`.
  The header bytes that are hashed for a nonce. The nonce search (`Run`).
  The re-check (`Validate`). The 8-byte big-endian encoding (`ToHex`).
- **Blocks** (`bChain/block.go`). Mining a new block (`CreateBlock`,
  `Genesis`). Its byte encoding for the store (`Serialize`, `Deserialize`).
  The error helper `Handle`.
- **The chain store** (`bChain/blockchain.go`):
  - `InitBlockChain` and `ContinueBlockChain`, which create or open the store;
  - `AddBlock`, which mines a block on the stored tip and writes it together
    with the new tip under the key `"lh"`;
  - the iterator, which walks from the tip back to the genesis block;
  - the UTXO queries `FindUnspentTransactions`, `FindUTXO` and
    `FindSpendableOutputs`.

## How the model is organised

| module | file | contents |
|---|---|---|
| `Wrappers` | `wrappers.dfy` | `Option`, `Result`, `Outcome` and the chain's error kinds |
| `Bytes` | `bytes.dfy` | big-endian numbers, bits and powers of two |
| `Types` | `types.dfy` | `Int64`, `Block`, and the external primitives |
| `Proof` | `proof.dfy` | proof of work |
| `Blocks` | `block.dfy` | block construction and encoding |
| `Transactions` | `transaction.dfy` | transaction shapes and predicates |
| `Utxo` | `utxo.dfy` | specification of the unspent-transaction scan |
| `Selection` | `selection.dfy` | specification of the greedy output selection |
| `Chain` | `blockchain.dfy` | the store, the chain, the iterator and the queries |
| `Findings` | `findings.dfy` | two discrepancies and their corrections |

`Chain` models the Go objects that are updated in place as classes:
- `Store` with `Present` and `Items`;
- `BlockChain` with `LastHash` and `Database`;
- `BlockChainIterator` with `CurrentHash` and `Database`.

Each Go loop is a Dafny `while` or `for` loop. Each loop is proved against a
specification function: `ScanTxs` for the unspent-transaction scan, `UTXOs`
for `FindUTXO`, and `Spendable` for `FindSpendableOutputs`. The lemmas in
`Utxo` and `Selection` characterise those functions.

Termination works like this. The iterator stops only when a block has an
empty `PrevHash`. The methods that walk the chain therefore take the ghost
list of blocks the walk visits. The predicate `Walk` ties that list to the
store.

Go's panics and `runtime.Goexit` become `Err` / `Fail` results:
- `AlreadyExists`: a chain is already there;
- `NotFound`: there is no chain;
- `CorruptChain`: a key is missing;
- `EncodingError`: an encoding fails.

The model makes these choices about collaborators and data:
- **External functions become parameters.** SHA-256, the payload digest
  (`HashTransactions`) and the payload codec form the `Primitives` parameter.
  The transaction predicates (`CanBeUnlocked`, `CanUnlock`, `IsCoinbase`) and
  `CoinbaseTx` form `TxOps`.
- **Go's `int` is 64 bits.** The nonce is an `Int64`.
- **Keys are raw IDs.** Transaction IDs in the UTXO maps are the raw bytes.
  Go's hex string is a bijection on them, so nothing is lost.

## Model

| member | source | states |
|---|---|---|
| Proof.Target | bChain/proof.go:24-39 | the target is 2^238, i.e. 1 shifted left by 256 - 18 |
| Proof.NewProof | bChain/proof.go:32-39 | the proof keeps the block and has target 2^(256 - Difficulty) |
| Proof.ToHexValue | bChain/proof.go:91-98 | the 8 bytes are num's two's-complement pattern, big-endian; for num >= 0 they read back as num |
| Proof.ToHexRoundTrip | bChain/proof.go:91-98 | reading the 8 bytes back as a signed 64-bit integer gives num |
| Proof.FromHexRoundTrip | bChain/proof.go:91-98 | every 8-byte string is the encoding of some int64, so the encoding is a bijection |
| Proof.InitDataLayout | bChain/proof.go:41-52 | the header is PrevHash, payload digest, nonce and difficulty joined without separators, each readable from its place |
| Proof.InitDataInjective | bChain/proof.go:41-52 | different nonces give different headers |
| Proof.InitDataReadsHeaderOnly | bChain/proof.go:41-52 | the header depends only on PrevHash and the payload digest, not on Hash or Nonce |
| Proof.TargetMeansLeadingZeros | bChain/proof.go:24-39 | a digest is below the target exactly when its first 18 bits are zero |
| Proof.TargetInBytes | bChain/proof.go:24-39 | below the target exactly when bytes 0 and 1 are zero and byte 2 is below 64 |
| Proof.Validate | bChain/proof.go:77-88 | true exactly when the digest of the header with the block's own nonce is below the target; with NewProof's target, exactly when it has 18 leading zero bits |
| Proof.ValidateIgnoresHash | bChain/proof.go:77-88 | Validate does not depend on the block's Hash field |
| Proof.Run | bChain/proof.go:54-75 | the returned nonce is the first one, from 0, whose digest is below the target, with that digest; if none below MaxInt64 works it returns MaxInt64 and the digest of MaxInt64 - 1 |
| Blocks.Handle | bChain/block.go:66-70 | an error aborts with that error; no error goes on |
| Blocks.CreateBlock | bChain/block.go:20-31 | the block keeps payload and previous hash, carries the first nonce meeting the target and its digest, and validates when the search succeeded |
| Blocks.Genesis | bChain/block.go:39-41 | a mined block with the given payload and an empty previous hash |
| Blocks.MinedBlockValidates | bChain/block.go:20-31 | a mined block whose search succeeded passes Validate and its Hash is its header digest |
| Blocks.ReadFrameOfFrame | bChain/block.go:43-64 | a length-prefixed field is read back exactly, leaving the rest |
| Blocks.Serialize | bChain/block.go:43-52 | encoding fails exactly when a field is too long for its length prefix; the failure is an EncodingError |
| Blocks.Deserialize | bChain/block.go:54-64 | a decoding failure is an EncodingError |
| Blocks.SerializeRoundTrip | bChain/block.go:43-64 | decoding what Serialize wrote gives back the block, given that the payload codec round-trips |
| Chain.Lookup | bChain/blockchain.go:139-158 | a missing key gives CorruptChain; any failure is CorruptChain or EncodingError |
| Chain.WalkDeterministic | bChain/blockchain.go:139-158 | the blocks the iterator visits from a hash are determined by the store |
| Chain.WalkFrame | bChain/blockchain.go:139-158 | a walk only depends on the keys it looks up |
| Chain.GenesisWalk | bChain/blockchain.go:53-64 | the store InitBlockChain writes has "lh" naming a one-block walk that ends at genesis |
| Chain.AppendExtendsWalk | bChain/blockchain.go:102-132 | after AddBlock's two writes the walk from the new tip is the new block followed by the old walk, and still ends at genesis if the old one did |
| Chain.BlockChain.AddBlock | bChain/blockchain.go:102-132 | a missing "lh" aborts with nothing written; otherwise the block mines the transactions on the stored tip; on success the store gains the serialized block under its hash and "lh" names it, and LastHash follows; an encoding failure leaves everything unchanged |
| Chain.BlockChain.Iterator | bChain/blockchain.go:134-137 | a fresh iterator at LastHash over the same store |
| Chain.BlockChainIterator.Next | bChain/blockchain.go:139-158 | returns the block stored under the current hash and moves to its PrevHash; if the block cannot be read it aborts in place |
| Chain.BlockChain.FindUnspentTransactions | bChain/blockchain.go:162-214 | succeeds exactly when the walk reaches genesis, and then returns UnspentTransactions of the visited blocks |
| Chain.BlockChain.FindUTXO | bChain/blockchain.go:218-229 | succeeds exactly when the walk reaches genesis, and then returns every unlockable output of every transaction FindUnspentTransactions returned |
| Chain.BlockChain.FindSpendableOutputs | bChain/blockchain.go:238-259 | succeeds exactly when the walk reaches genesis, and then returns the greedy selection over those transactions' unlockable outputs |
| Chain.CollectUTXOs | bChain/blockchain.go:221-227 | the loop computes exactly the UTXOs specification |
| Chain.AppendUnlocked | bChain/blockchain.go:222-226 | appends exactly the outputs address can unlock, in order |
| Chain.SelectOutputs | bChain/blockchain.go:243-256 | the labelled Work loop computes exactly the greedy selection Spendable of the candidates |
| Chain.SelectFromTx | bChain/blockchain.go:246-255 | one transaction's outputs either finish the selection at the greedy prefix or extend the walk state by all of that transaction's candidates |
| Chain.ScanBlock | bChain/blockchain.go:174-207 | scanning a block's transactions leaves the returned list and spent map equal to those ScanTxs computes for all transactions visited so far |
| Chain.ScanTransaction | bChain/blockchain.go:175-206 | one transaction appends exactly its unlockable, unspent outputs' transactions and, unless it is a coinbase, records its inputs that the address unlocks in the spent map; a coinbase leaves the spent map unchanged |
| Chain.ExamineOutputs | bChain/blockchain.go:176-195 | the Outputs loop appends the transaction once for each output that is unlockable and not in the spent map |
| Chain.RecordSpent | bChain/blockchain.go:196-206 | the inputs loop records exactly the inputs address can unlock |
| Chain.InitBlockChain | bChain/blockchain.go:35-70 | an existing chain aborts with AlreadyExists; otherwise the store holds exactly the genesis block, which pays the coinbase to address, and "lh" naming it, and the chain starts at the genesis hash |
| Chain.ContinueBlockChain | bChain/blockchain.go:72-100 | no chain gives NotFound, a missing "lh" gives CorruptChain, otherwise a chain at the stored tip over the same store |
| Utxo.ScanTxsSnoc | bChain/blockchain.go:172-207 | scanning one more transaction is one ScanTx step |
| Utxo.SpentCharacterization | bChain/blockchain.go:196-206 | output i of id is in the spent map exactly when some visited non-coinbase transaction has an input, unlockable by address, spending it |
| Utxo.OutputHitsExact | bChain/blockchain.go:176-195 | a transaction's hits are exactly its outputs that are unlockable and not yet spent, each once, in increasing index order |
| Utxo.HitsCharacterization | bChain/blockchain.go:162-214 | a hit is recorded exactly when its output is unspent and unlockable at some position of the visited transactions |
| Utxo.UnspentTransactionsMembership | bChain/blockchain.go:162-214 | a transaction is returned exactly when one of its occurrences has an unspent output address can unlock |
| Utxo.HitsPerTransaction | bChain/blockchain.go:176-195 | a transaction is appended once per qualifying output, so it can appear several times |
| Utxo.UTXOsMembership | bChain/blockchain.go:218-229 | an output is listed exactly when it is an unlockable output of a returned transaction |
| Selection.GreedyCountMeaning | bChain/blockchain.go:243-256 | the walk stops at the first prefix whose sum reaches amount, or takes everything |
| Selection.SpendableMeaning | bChain/blockchain.go:238-259 | the accumulated value is the sum of the selected prefix; every shorter prefix is below amount; if the result is below amount, every candidate was taken |
| Selection.SpendableNonPositive | bChain/blockchain.go:246 | an amount of zero or less selects nothing |
| Selection.CandidatesMembership | bChain/blockchain.go:245-247 | a candidate is exactly an unlockable output of one of the transactions, with its ID, index and value |
| Selection.GroupMembership | bChain/blockchain.go:248-249 | an index is listed under an ID exactly when a selected candidate names it |
| Selection.SelectionSound | bChain/blockchain.go:238-259 | every selected index is an output, unlockable by address, of a transaction with that ID |
| Findings.FindUTXOCountsSpent | bChain/blockchain.go:218-229 | on a chain where transaction [2] spends output 0 of [1], FindUTXO still reports that output, and the corrected UnspentOutputs does not |
| Findings.FindSpendableOutputsRepeats | bChain/blockchain.go:238-259 | when a transaction has two unspent outputs, FindSpendableOutputs selects each of them twice; the corrected selection takes each once |
| Findings.UnspentOutputsSound | bChain/blockchain.go:162-214 | every output the corrected FindUTXO reports is unspent and unlockable |
| Findings.UnspentOutputsComplete | bChain/blockchain.go:162-214 | every unspent unlockable output is reported by the corrected FindUTXO |
| Findings.UnspentOutputsExact | bChain/blockchain.go:162-214 | the corrected FindUTXO reports one output per hit, and with distinct transaction IDs no output twice |
| Findings.HitsDistinct | bChain/blockchain.go:176-195 | with distinct transaction IDs the scan never reports the same (ID, index) twice |
| Findings.CorrectedSelectionUnspent | bChain/blockchain.go:238-259 | every index the corrected selection lists is an unspent output of a transaction with that ID |
| Findings.CorrectedSelectionOnce | bChain/blockchain.go:238-259 | with distinct transaction IDs the corrected selection never lists an index twice under an ID |

## Left out

- badger's I/O. The store is a map from keys to bytes, plus a flag for
  whether its MANIFEST file exists. DBexists and os.Stat read that flag.
  Transactions, directories and options are not modelled.
- Printing: the `fmt.Printf` of every hash tried, "Genesis created", and the
  messages before `runtime.Goexit`.
- Process exits and panics. `log.Panic` and `runtime.Goexit` are modelled as
  `Err`/`Fail` results. Nothing models killing the process.
- Cyclic stores. `FindUnspentTransactions`, `FindUTXO` and
  `FindSpendableOutputs` require that the walk from the tip is finite. On a
  store whose PrevHash links form a cycle, the Go loop runs forever.
- gob's exact wire format. It is replaced by a length-prefixed layout of the
  same fields with an abstract payload codec. The round trip is proved given
  that the payload codec round-trips.
- SHA-256 and `Block.HashTransactions` are parameters. Nothing is assumed
  about them.
- The transaction subsystem is not part of this model. That covers
  `CanBeUnlocked`, `CanUnlock`, `IsCoinbase`, `CoinbaseTx`, and how
  transactions are built and signed. These are parameters.
- `FindSpendableOutputs` does not model overflow of the Go `int` in
  `accumulated += out.Value`, because values are unbounded integers.
- The payload shape. As shown, block.go has a `Data []byte` field, and its
  `CreateBlock(data string, …)` and `Genesis()` take a string or nothing.
  blockchain.go calls them with transactions (`CreateBlock(transaction,
  lastHash)`, `Genesis(cbtx)`), and proof.go hashes
  `Block.HashTransactions()`. The model follows the callers: the payload is
  generic, and the chain uses transaction lists. Genesis takes its payload as
  a parameter.
- `ContinueBlockChain` does not take the Go function's `address` parameter,
  because the Go function never uses it.
- The Go code tests `spentTXOs[txID] != nil` before scanning a list. The
  model has no such test, because a missing key and an empty list behave the
  same.
- Hex strings. Keys of the spent and selection maps are raw transaction IDs,
  not `hex.EncodeToString` of them. Hex encoding is injective, so the maps
  have the same structure.
- main.go, the command-line interface and the wallet are not part of this
  model.

## Findings

| source | as written | input that shows it | evidently intended | confidence | as-written member | corrected member |
|---|---|---|---|---|---|---|
| bChain/blockchain.go:218-229 | FindUTXO lists every unlockable output of each transaction FindUnspentTransactions returned. So outputs that were already spent are included, and a transaction with several unspent outputs contributes all of them once per listing. | transaction [1] pays 5 and 7 to A; a later transaction [2] spends output 0 of [1]. FindUTXO returns both outputs (balance 12) | only the unspent outputs, each once (the 7 only, balance 7) | not executed | Findings.FindUTXOCountsSpent | Findings.UnspentOutputsSound |
| bChain/blockchain.go:238-259 | FindSpendableOutputs walks every unlockable output of each returned transaction. A transaction listed twice makes its outputs selectable twice, and spent outputs are selectable too. | transaction [1] pays 5 and 5 to A and nothing spends them; amount 20 gives (20, {[1]: [0, 1, 0, 1]}) | each unspent output at most once: (10, {[1]: [0, 1]}) | not executed | Findings.FindSpendableOutputsRepeats | Findings.CorrectedSelectionOnce |

The corrected definitions are in `Findings`:
- `UnspentOutputs` replaces FindUTXO. It is built from the scan's hits.
- `CorrectedSpendableOutputs` replaces FindSpendableOutputs. It is the same
  greedy walk over those hits.

The properties proved about them:
- `UnspentOutputsComplete` together with `UnspentOutputsSound`: an output is
  reported exactly when it is unspent, and with distinct transaction IDs
  each output at most once (`UnspentOutputsExact`).
- `CorrectedSelectionUnspent` and `CorrectedSelectionOnce`: only unspent
  outputs are selected, and none twice.

The `Chain` methods keep modelling the code as written.
