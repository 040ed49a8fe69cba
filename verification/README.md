# pETHit core, modelled in Dafny

pETHit is a minimal single-node ledger written in Rust. This project models its
sequential core as pure functions over immutable values:

- **Storage** (`pethit-storage`): `SimpleStorage`, an in-memory map from
  byte-string keys to byte-string values, with `new`, `put` and `get`.
- **Execution** (`pethit-execution`, iteration 1): a `Transaction` is a
  `{key, value}` pair. `ExecutionEngine::execute` applies it as a `put`.
  `get_state` reads the storage back.
- **TxPool** (`pethit-txpool`): the inner `TxPool`, a map from transaction
  hash to transaction. `add` inserts or overwrites. `get_all` takes a
  snapshot. `clear` empties the pool.
- **Consensus** (`pethit-consensus`): `Block`, `Block::hash`, `Block::seal`,
  `SealedBlock`, and the `Miner`. The miner covers the genesis step of
  `start_mining` and one `mine_block` per heartbeat.

The model is split into five modules, one per crate plus `Primitives`.
`Primitives` holds bytes, 32-byte hashes, `u64`, and the big-endian
encoding `u64::to_be_bytes`.

The two hash functions are parameters of the model: keccak256 over bytes,
and a transaction's own hash. Nothing is assumed about them, not even that
they are injective. The transaction type stored in the pool and in blocks is
a type parameter `T`. The miner's storage type is a type parameter `S`, and
its batch-execution step is a parameter too. The lemmas
`Consensus.MinedStorageReplaysBlock` and `Consensus.MinedKeyHoldsLastWrite`
plug in the iteration-1 engine (`Execution.ExecuteAll` over
`Storage.SimpleStorage`).

The pool's `HashMap` has no defined iteration order. The model keeps one
explicit key order next to the map as a stand-in. That stand-in is insertion
order, which `HashMap` does not provide, so no contract relies on it.

The txpool and consensus crates already refer to a later `SignedTransaction`.
The execution crate modelled here (`crates/pethit-execution/src/lib.rs:26-29`)
only does a `put` and never fails, so the model has no signature, nonce or
balance checks. Likewise `mine_block` puts every snapshot transaction into the
block, and the model does the same. The consensus crate runs the batch through
a `SharedStorage::update` that the storage crate does not define, so the model
takes the batch step as a parameter. `Block.transactions` is declared as
`Vec<Transaction>` but is filled from the pool's transactions; the generic `T`
covers both.

## Model

| member | source | states |
|---|---|---|
| Primitives.U64ToBeBytes | crates/pethit-consensus/src/lib.rs:17 | the id encoding is exactly eight bytes, and reading them back as a big-endian number gives the id |
| Primitives.U64FromBeBytes | crates/pethit-consensus/src/lib.rs:17 | every eight-byte string is the encoding of exactly one u64, so the encoding is a bijection |
| Primitives.FromToBeBytes | crates/pethit-consensus/src/lib.rs:17 | big-endian decoding undoes encoding for any number that fits in the given width |
| Primitives.ToFromBeBytes | crates/pethit-consensus/src/lib.rs:17 | big-endian encoding undoes decoding for every byte string |
| Storage.New | crates/pethit-storage/src/lib.rs:15-18 | a fresh storage returns None for every key |
| Storage.Put | crates/pethit-storage/src/lib.rs:23-25 | after put(k, v), get(k) is Some(v); every other key reads as before; the key set grows by k only |
| Storage.GetDetermines | crates/pethit-storage/src/lib.rs:29-31 | two storages that answer every get alike are equal, so get observes the whole state |
| Storage.PutOverwrites | crates/pethit-storage/src/lib.rs:23-25 | a second put to the same key replaces the first entirely: the last writer wins |
| Storage.PutIdempotent | crates/pethit-storage/src/lib.rs:23-25 | putting the same pair twice gives the same storage as putting it once |
| Storage.PutCommutes | crates/pethit-storage/src/lib.rs:23-25 | puts to different keys give the same storage in either order |
| Execution.Execute | crates/pethit-execution/src/lib.rs:26-29 | execute has no precondition and no error result; afterwards get_state(tx.key) is Some(tx.value) and every other key is unchanged |
| Execution.ExecuteBatch | crates/pethit-consensus/src/lib.rs:96-100 | the loop that executes a batch one transaction at a time ends in the storage that applying the batch in order defines |
| Execution.LastWriterWins | crates/pethit-execution/src/lib.rs:26-29 | after a batch, a key holds the value of the last transaction in the batch that wrote it |
| Execution.UnwrittenKeyUnchanged | crates/pethit-execution/src/lib.rs:26-29 | after a batch, a key no transaction wrote keeps its earlier value |
| TxPool.New | crates/pethit-txpool/src/lib.rs:17-21 | a new pool has no entries and an empty snapshot |
| TxPool.Add | crates/pethit-txpool/src/lib.rs:23-26 | add behaves as a map insert on the pool's entries: the entry for h becomes tx |
| TxPool.AddOverwrites | crates/pethit-txpool/src/lib.rs:23-26 | after add(h, tx) the entry for h is tx and every other entry is unchanged; the pool grows by one exactly when h was absent |
| TxPool.GetAll | crates/pethit-txpool/src/lib.rs:28-31 | the snapshot has one element per pending hash |
| TxPool.GetAllCounts | crates/pethit-txpool/src/lib.rs:28-31 | a transaction occurs in the snapshot once for each hash it is stored under |
| TxPool.GetAllMembers | crates/pethit-txpool/src/lib.rs:28-31 | a transaction is in the snapshot exactly when it is a pending value |
| TxPool.Clear | crates/pethit-txpool/src/lib.rs:33-36 | after clear the pool has no entries and an empty snapshot |
| TxPool.AddedIsPending | crates/pethit-txpool/src/lib.rs:118-130 | after add(h, tx), tx is in the snapshot |
| TxPool.AddTwiceKeepsOne | crates/pethit-txpool/src/lib.rs:133-145 | adding the same hash and transaction twice gives the same pool as adding once; from an empty pool the snapshot has length 1 |
| TxPool.AddAllFreshCount | crates/pethit-txpool/src/lib.rs:148-177 | adding N transactions whose hashes are pairwise distinct and not yet pending grows the pool and its snapshot by exactly N |
| TxPool.AddCommutes | crates/pethit-txpool/src/lib.rs:148-177 | adds under different hashes give the same entries in either order; the snapshot's order, and with it the mined block's transaction order and hash, may differ |
| Consensus.Preimage | crates/pethit-consensus/src/lib.rs:16-22 | the bytes hashed for a block are 8 id bytes, then the 32-byte parent hash, then 32 bytes per transaction |
| Consensus.PreimageRoundTrip | crates/pethit-consensus/src/lib.rs:15-25 | the id, the parent hash and the ordered transaction hashes can be decoded back from the hashed bytes |
| Consensus.PreimageInjective | crates/pethit-consensus/src/lib.rs:15-25 | two blocks give the same hashed bytes exactly when their ids, parent hashes and ordered transaction-hash lists are equal |
| Consensus.BlockHashDeterminedBy | crates/pethit-consensus/src/lib.rs:15-25 | the block hash depends only on the id, the parent hash and the ordered transaction hashes |
| Consensus.Seal | crates/pethit-consensus/src/lib.rs:27-34 | seal keeps the block unchanged and attaches that block's own hash |
| Consensus.SealedIsSeal | crates/pethit-consensus/src/lib.rs:37-42 | any sealed block that carries its block's hash is the seal of that block |
| Consensus.ExecuteSnapshot | crates/pethit-consensus/src/lib.rs:93-101 | skipping the batch step on an empty snapshot cannot be observed when the batch step leaves the storage unchanged on an empty batch: then the result is the batch step applied to the snapshot, whether or not it is empty |
| Consensus.MineBlock | crates/pethit-consensus/src/lib.rs:89-123 | fails exactly on a u64 overflow of block_num or on an empty chain; otherwise block_num goes up by 1, exactly one block is appended and earlier blocks are untouched, the new id is the new block_num, the parent is the old tip's k_hash, the transactions are the pool snapshot, the storage ran the snapshot only if it was non-empty, and the pool ends empty |
| Consensus.GenesisIsValid | crates/pethit-consensus/src/lib.rs:75-81 | after start_mining's genesis step a new miner's chain has one block with id 0, no transactions and the zero parent hash, and it is linked |
| Consensus.AppendKeepsLinked | crates/pethit-consensus/src/lib.rs:105-121 | appending a sealed block that continues the ids and names the tip's hash as parent keeps the chain linked |
| Consensus.MineBlockKeepsLinked | crates/pethit-consensus/src/lib.rs:104-121 | on a linked chain, mine_block cannot fail before block_num reaches the largest u64, and it keeps ids consecutive and each parent hash equal to the previous k_hash |
| Consensus.RunKeepsLinked | crates/pethit-consensus/src/lib.rs:83-86 | over any number of heartbeats up to the u64 limit of block_num, with any submissions, the chain stays linked, grows by one block per heartbeat and never changes earlier blocks |
| Consensus.MinedStorageReplaysBlock | crates/pethit-consensus/src/lib.rs:91-111 | with the iteration-1 engine, the storage after mining equals the old storage with the new block's transactions executed in block order |
| Consensus.MinedKeyHoldsLastWrite | crates/pethit-consensus/src/lib.rs:93-100 | with the iteration-1 engine, after mining, each key written by the new block holds the value of the block's last transaction for that key |

## Left out

- `crates/pethit-rpc`, `crates/pethit-wallet` and `crates/pethit-node`: HTTP
  handlers, hex and RLP decoding, the CLI, ECDSA signing and process wiring.
  These are I/O and foreign-library plumbing around the core.
- keccak256 and the transaction hash are not modelled. They are parameters
  with no assumed properties.
- `Arc<Mutex<..>>`, lock poisoning, `thread::sleep` and the endless
  heartbeat loop: every operation is one sequential step. `Run` stands for a
  finite prefix of the loop. The lock-poisoning error of `SharedTxPool::add`
  is not modelled. Its `add`, `get_all_transactions` and `clear` are
  pass-throughs to the inner pool, so the inner operations model them.
- A consequence of that choice: submissions that reach the pool between
  `mine_block`'s snapshot and its `clear` are discarded without being mined.
  The sequential model cannot express this.
- `SharedStorage::update`, signed-transaction execution, signature recovery,
  nonces and balances: none of these is defined in the modelled execution and
  storage crates. The batch step is a parameter instead.
- `println!` logging, and the `Deref` from `SealedBlock` to `Block`, which the
  model writes as the `.block` field.
- Execution.GetState: carries no contract of its own. It is defined as
  `Storage.Get`, which is the whole of `get_state`'s behaviour.
- Storage.Get: that `get` leaves the storage unchanged holds by construction,
  because every state is an immutable value. No lemma states it.
- MineBlock: `block_num += 1` on `u64::MAX` is modelled as the panic a debug
  build raises (`BlockNumOverflow`). A release build would instead wrap
  block_num to 0.
- MineBlock: on both panics the model returns an error and drops the state.
  In the code the batch has already been executed on the shared storage by
  then.
- Consensus.BlockHash: carries no contract of its own, because keccak256 is a
  parameter about which nothing is assumed. What it hashes is stated by
  `Consensus.Preimage`, `Consensus.PreimageRoundTrip` and
  `Consensus.PreimageInjective`. `Consensus.BlockHashDeterminedBy` states
  what the hash depends on.
- Consensus.Tick and Consensus.Run carry no contract of their own.
  `Consensus.RunKeepsLinked` states what a run of heartbeats establishes.
- Consensus.StartMining and Consensus.NewMiner carry no contract of their
  own. `GenesisIsValid` states what they establish together.
