/** Blocks, sealing and the miner.

    A block's hash is keccak256 over its id (eight bytes, big-endian), its
    parent's hash and the hash of each of its transactions in order. Both
    hash functions are parameters (`Hashing`) and nothing is assumed about
    them, not even injectivity. The miner is a pure state-transition
    function; the batch execution it triggers is a parameter too, because
    the storage it runs against is shared with the rest of the node. */
module Consensus {
  import opened Primitives
  import TxPool
  import Storage
  import Execution

  datatype Block<T> = Block(id: u64, transactions: seq<T>, parentHash: Hash)

  /** A block bundled with its hash. */
  datatype SealedBlock<T> = SealedBlock(block: Block<T>, kHash: Hash)

  /** keccak256 over bytes, and a transaction's own hash. */
  datatype Hashing<!T> = Hashing(keccak: Bytes -> Hash, txHash: T -> Hash)

  /** The hashes of a block's transactions, in block order. */
  function TxHashes<T>(txs: seq<T>, txHash: T -> Hash): (r: seq<Hash>)
    ensures |r| == |txs|
  {
    if |txs| == 0 then [] else TxHashes(txs[..|txs| - 1], txHash) + [txHash(txs[|txs| - 1])]
  }

  /** The hashes laid end to end. */
  function ConcatHashes(hs: seq<Hash>): (data: Bytes)
    ensures |data| == HASH_LEN * |hs|
  {
    if |hs| == 0 then [] else ConcatHashes(hs[..|hs| - 1]) + hs[|hs| - 1]
  }

  /** Cuts a byte string into consecutive 32-byte hashes. */
  function SplitHashes(data: Bytes): (hs: seq<Hash>)
    requires |data| % HASH_LEN == 0
    ensures HASH_LEN * |hs| == |data|
  {
    if |data| == 0 then [] else SplitHashes(data[..|data| - HASH_LEN]) + [data[|data| - HASH_LEN..]]
  }

  /** Concatenated hashes can be cut apart again, one hash per 32 bytes. */
  lemma {:induction false} SplitConcat(hs: seq<Hash>)
    ensures SplitHashes(ConcatHashes(hs)) == hs
  {
    if |hs| > 0 {
      var prefix := hs[..|hs| - 1];
      var data := ConcatHashes(hs);
      assert data[..|data| - HASH_LEN] == ConcatHashes(prefix);
      assert data[|data| - HASH_LEN..] == hs[|hs| - 1];
      SplitConcat(prefix);
    }
  }

  /** The bytes `Block::hash` feeds to keccak256. */
  function Preimage<T>(b: Block<T>, txHash: T -> Hash): (data: Bytes)
    ensures |data| == 8 + HASH_LEN + HASH_LEN * |b.transactions|
  {
    U64ToBeBytes(b.id) + b.parentHash + ConcatHashes(TxHashes(b.transactions, txHash))
  }

  /** Reads id, parent hash and transaction hashes back out of a preimage;
      None when the length cannot be that of a preimage. */
  function DecodePreimage(data: Bytes): Option<(u64, Hash, seq<Hash>)>
  {
    if |data| < 8 + HASH_LEN || (|data| - 8 - HASH_LEN) % HASH_LEN != 0 then None
    else
      var parent: Hash := data[8..8 + HASH_LEN];
      Some((U64FromBeBytes(data[..8]), parent, SplitHashes(data[8 + HASH_LEN..])))
  }

  /** The preimage encoding is unambiguous: its fields are fixed width, so
      the id, the parent hash and the transaction hashes can be read back. */
  lemma PreimageRoundTrip<T>(b: Block<T>, txHash: T -> Hash)
    ensures DecodePreimage(Preimage(b, txHash)) == Some((b.id, b.parentHash, TxHashes(b.transactions, txHash)))
  {
    var data := Preimage(b, txHash);
    var hashes := ConcatHashes(TxHashes(b.transactions, txHash));
    assert data[..8] == U64ToBeBytes(b.id);
    assert data[8..8 + HASH_LEN] == b.parentHash;
    assert data[8 + HASH_LEN..] == hashes;
    SplitConcat(TxHashes(b.transactions, txHash));
  }

  /** Two blocks have the same preimage exactly when they agree on id,
      parent hash and the ordered list of transaction hashes. */
  lemma PreimageInjective<T>(b1: Block<T>, b2: Block<T>, txHash: T -> Hash)
    ensures Preimage(b1, txHash) == Preimage(b2, txHash) <==>
      && b1.id == b2.id
      && b1.parentHash == b2.parentHash
      && TxHashes(b1.transactions, txHash) == TxHashes(b2.transactions, txHash)
  {
    PreimageRoundTrip(b1, txHash);
    PreimageRoundTrip(b2, txHash);
  }

  /** `Block::hash`. */
  function BlockHash<T>(b: Block<T>, hs: Hashing<T>): Hash
  {
    hs.keccak(Preimage(b, hs.txHash))
  }

  /** The block hash depends on nothing but the id, the parent hash and the
      ordered transaction hashes. */
  lemma BlockHashDeterminedBy<T>(b1: Block<T>, b2: Block<T>, hs: Hashing<T>)
    requires b1.id == b2.id && b1.parentHash == b2.parentHash
    requires TxHashes(b1.transactions, hs.txHash) == TxHashes(b2.transactions, hs.txHash)
    ensures BlockHash(b1, hs) == BlockHash(b2, hs)
  {
  }

  /** The sealed block carries its own block's hash. */
  predicate IsSealed<T>(sb: SealedBlock<T>, hs: Hashing<T>)
  {
    sb.kHash == BlockHash(sb.block, hs)
  }

  /** `Block::seal`: pairs the unchanged block with its hash. */
  function Seal<T>(b: Block<T>, hs: Hashing<T>): (sb: SealedBlock<T>)
    ensures sb.block == b
    ensures IsSealed(sb, hs)
  {
    SealedBlock(b, BlockHash(b, hs))
  }

  /** Sealing is the only way to obtain a correctly sealed block: any sealed
      block is the seal of its own block. */
  lemma SealedIsSeal<T>(sb: SealedBlock<T>, hs: Hashing<T>)
    requires IsSealed(sb, hs)
    ensures sb == Seal(sb.block, hs)
  {
  }

  datatype Miner<S, T> = Miner(
    txpool: TxPool.TxPool<Hash, T>,
    storage: S,
    blockchain: seq<SealedBlock<T>>,
    blockNum: u64)

  /** `Miner::new`: no blocks yet, block number 0. */
  function NewMiner<S, T>(txpool: TxPool.TxPool<Hash, T>, storage: S): Miner<S, T>
  {
    Miner(txpool, storage, [], 0)
  }

  /** The genesis step of `Miner::start_mining`: a sealed block with the
      current block number as id, no transactions and the zero parent hash is
      pushed onto the chain. The heartbeat loop that follows is MineBlock
      applied once per tick. */
  function StartMining<S, T>(m: Miner<S, T>, hs: Hashing<T>): Miner<S, T>
  {
    Miner(m.txpool, m.storage, m.blockchain + [Seal(Block(m.blockNum, [], ZERO_HASH), hs)], m.blockNum)
  }

  /** The two panics of `mine_block`: the block number overflowing u64
      (a debug build checks `+= 1`) and unwrapping the last block of an empty
      chain. */
  datatype MineError = BlockNumOverflow | NoParentBlock

  /** The batch `mine_block` executes: the pool snapshot when it is
      non-empty, and nothing when it is empty. */
  function ExecuteSnapshot<S, T>(s: S, txs: seq<T>, executeBatch: (S, seq<T>) -> S): (r: S)
    ensures |txs| == 0 ==> r == s
    ensures |txs| > 0 ==> r == executeBatch(s, txs)
    ensures executeBatch(s, []) == s ==> r == executeBatch(s, txs)
  {
    if |txs| == 0 then s else executeBatch(s, txs)
  }

  /** What one successful `mine_block` does to the miner: the block number
      goes up by one; exactly one block is appended and earlier blocks are
      untouched; the new block's id is the new block number, its parent hash
      is the previous tip's hash, its transactions are the pool snapshot, and
      it is sealed; the storage has run the snapshot (only if non-empty); and
      the pool is empty. */
  ghost predicate MinedFrom<S, T>(m: Miner<S, T>, m': Miner<S, T>, hs: Hashing<T>, executeBatch: (S, seq<T>) -> S)
  {
    var txs := TxPool.GetAll(m.txpool);
    && |m.blockchain| > 0
    && m'.blockNum == m.blockNum + 1
    && |m'.blockchain| == |m.blockchain| + 1
    && m'.blockchain[..|m.blockchain|] == m.blockchain
    && m'.blockchain[|m.blockchain|].block.id == m'.blockNum
    && m'.blockchain[|m.blockchain|].block.parentHash == m.blockchain[|m.blockchain| - 1].kHash
    && m'.blockchain[|m.blockchain|].block.transactions == txs
    && IsSealed(m'.blockchain[|m.blockchain|], hs)
    && m'.storage == ExecuteSnapshot(m.storage, txs, executeBatch)
    && |TxPool.GetAll(m'.txpool)| == 0
  }

  /** `Miner::mine_block`, one heartbeat. */
  function MineBlock<S, T>(m: Miner<S, T>, hs: Hashing<T>, executeBatch: (S, seq<T>) -> S): (r: Result<Miner<S, T>, MineError>)
    ensures r == Err(BlockNumOverflow) <==> m.blockNum == U64_MAX
    ensures r == Err(NoParentBlock) <==> m.blockNum < U64_MAX && |m.blockchain| == 0
    ensures r.Ok? ==> MinedFrom(m, r.value, hs, executeBatch)
  {
    var txs := TxPool.GetAll(m.txpool);
    var storage := ExecuteSnapshot(m.storage, txs, executeBatch);
    if m.blockNum == U64_MAX then Err(BlockNumOverflow)
    else
      var num := m.blockNum + 1;
      if |m.blockchain| == 0 then Err(NoParentBlock)
      else
        var parent := m.blockchain[|m.blockchain| - 1];
        var sealed := Seal(Block(num, txs, parent.kHash), hs);
        Ok(Miner(TxPool.Clear(m.txpool), storage, m.blockchain + [sealed], num))
  }

  /** The chain-linkage invariant: a non-empty chain whose first block is a
      genesis block, whose ids count up from 0, whose blocks are all sealed,
      and in which every block names its predecessor's hash as parent. */
  ghost predicate LinkedChain<T>(chain: seq<SealedBlock<T>>, hs: Hashing<T>)
  {
    && |chain| > 0
    && chain[0].block.parentHash == ZERO_HASH
    && chain[0].block.transactions == []
    && (forall i :: 0 <= i < |chain| ==> chain[i].block.id == i && IsSealed(chain[i], hs))
    && (forall i :: 0 < i < |chain| ==> chain[i].block.parentHash == chain[i - 1].kHash)
  }

  /** A running miner: linked chain, and the block number is the tip's id. */
  ghost predicate ValidMiner<S, T>(m: Miner<S, T>, hs: Hashing<T>)
  {
    LinkedChain(m.blockchain, hs) && m.blockNum == |m.blockchain| - 1
  }

  /** After `start_mining`'s genesis step a new miner holds one block: id 0,
      no transactions, zero parent hash. */
  lemma GenesisIsValid<S, T>(txpool: TxPool.TxPool<Hash, T>, storage: S, hs: Hashing<T>)
    ensures ValidMiner(StartMining(NewMiner(txpool, storage), hs), hs)
    ensures |StartMining(NewMiner(txpool, storage), hs).blockchain| == 1
    ensures StartMining(NewMiner(txpool, storage), hs).blockchain[0].block == Block(0, [], ZERO_HASH)
  {
  }

  /** Mining keeps the chain linked, and it cannot fail on a running miner
      until the block number reaches the largest u64. */
  lemma MineBlockKeepsLinked<S, T>(m: Miner<S, T>, hs: Hashing<T>, executeBatch: (S, seq<T>) -> S)
    requires ValidMiner(m, hs)
    requires m.blockNum < U64_MAX
    ensures MineBlock(m, hs, executeBatch).Ok?
    ensures ValidMiner(MineBlock(m, hs, executeBatch).value, hs)
  {
    var m' := MineBlock(m, hs, executeBatch).value;
    var n := |m.blockchain|;
    assert MinedFrom(m, m', hs, executeBatch);
    assert m'.blockchain == m.blockchain + [m'.blockchain[n]];
    AppendKeepsLinked(m.blockchain, m'.blockchain[n], hs);
  }

  /** Appending a sealed block that continues the numbering and names the
      tip's hash as parent keeps a chain linked. */
  lemma AppendKeepsLinked<T>(chain: seq<SealedBlock<T>>, b: SealedBlock<T>, hs: Hashing<T>)
    requires LinkedChain(chain, hs)
    requires b.block.id == |chain| && IsSealed(b, hs)
    requires b.block.parentHash == chain[|chain| - 1].kHash
    ensures LinkedChain(chain + [b], hs)
  {
  }

  /** One heartbeat of the running node: the producers' submissions reach the
      pool, then a block is mined. */
  function Tick<S, T>(m: Miner<S, T>, arrivals: seq<(Hash, T)>, hs: Hashing<T>, executeBatch: (S, seq<T>) -> S): Result<Miner<S, T>, MineError>
  {
    MineBlock(Miner(TxPool.AddAll(m.txpool, arrivals), m.storage, m.blockchain, m.blockNum), hs, executeBatch)
  }

  /** A run of heartbeats, stopping at the first failure. */
  function Run<S, T>(m: Miner<S, T>, rounds: seq<seq<(Hash, T)>>, hs: Hashing<T>, executeBatch: (S, seq<T>) -> S): Result<Miner<S, T>, MineError>
  {
    if |rounds| == 0 then Ok(m)
    else
      match Run(m, rounds[..|rounds| - 1], hs, executeBatch)
      case Err(e) => Err(e)
      case Ok(m1) => Tick(m1, rounds[|rounds| - 1], hs, executeBatch)
  }

  /** Over any run of heartbeats the chain stays linked, gains exactly one
      block per heartbeat, and never changes a block it already holds. */
  lemma {:induction false} RunKeepsLinked<S, T>(m: Miner<S, T>, rounds: seq<seq<(Hash, T)>>, hs: Hashing<T>, executeBatch: (S, seq<T>) -> S)
    requires ValidMiner(m, hs)
    requires m.blockNum + |rounds| <= U64_MAX
    ensures Run(m, rounds, hs, executeBatch).Ok?
    ensures ValidMiner(Run(m, rounds, hs, executeBatch).value, hs)
    ensures |Run(m, rounds, hs, executeBatch).value.blockchain| == |m.blockchain| + |rounds|
    ensures Run(m, rounds, hs, executeBatch).value.blockchain[..|m.blockchain|] == m.blockchain
  {
    if |rounds| > 0 {
      var prefix := rounds[..|rounds| - 1];
      RunKeepsLinked(m, prefix, hs, executeBatch);
      var m1 := Run(m, prefix, hs, executeBatch).value;
      var m2 := Miner(TxPool.AddAll(m1.txpool, rounds[|rounds| - 1]), m1.storage, m1.blockchain, m1.blockNum);
      MineBlockKeepsLinked(m2, hs, executeBatch);
      var m3 := MineBlock(m2, hs, executeBatch).value;
      assert MinedFrom(m2, m3, hs, executeBatch);
      assert m3.blockchain[..|m.blockchain|] == m1.blockchain[..|m.blockchain|];
    }
  }

  /** With the iteration-1 engine as the batch step, the storage after a
      heartbeat is the storage before it with the new block's transactions
      executed in block order; an empty block leaves it as it was. */
  lemma MinedStorageReplaysBlock(m: Miner<Storage.SimpleStorage, Execution.Transaction>, hs: Hashing<Execution.Transaction>)
    requires m.blockNum < U64_MAX && |m.blockchain| > 0
    ensures MineBlock(m, hs, Execution.ExecuteAll).Ok?
    ensures var m' := MineBlock(m, hs, Execution.ExecuteAll).value;
      m'.storage == Execution.ExecuteAll(m.storage, m'.blockchain[|m'.blockchain| - 1].block.transactions)
  {
  }

  /** With the iteration-1 engine, after a heartbeat each key written by the
      new block holds the value of the block's last transaction writing it. */
  lemma MinedKeyHoldsLastWrite(m: Miner<Storage.SimpleStorage, Execution.Transaction>, hs: Hashing<Execution.Transaction>)
    requires m.blockNum < U64_MAX && |m.blockchain| > 0
    ensures MineBlock(m, hs, Execution.ExecuteAll).Ok?
    ensures var m' := MineBlock(m, hs, Execution.ExecuteAll).value;
      var txs := m'.blockchain[|m.blockchain|].block.transactions;
      forall i :: 0 <= i < |txs| && (forall j :: i < j < |txs| ==> txs[j].key != txs[i].key) ==>
        Execution.GetState(m'.storage, txs[i].key) == Some(txs[i].value)
  {
    var m' := MineBlock(m, hs, Execution.ExecuteAll).value;
    var txs := m'.blockchain[|m.blockchain|].block.transactions;
    MinedStorageReplaysBlock(m, hs);
    forall i | 0 <= i < |txs| && (forall j :: i < j < |txs| ==> txs[j].key != txs[i].key)
      ensures Execution.GetState(m'.storage, txs[i].key) == Some(txs[i].value)
    {
      Execution.LastWriterWins(m.storage, txs, i);
    }
  }
}
