/** The iteration-1 execution engine: a transaction is a request to store a
    value under a key, and executing it is a `put` on the storage. The engine
    has no error path and no state of its own. */
module Execution {
  import opened Primitives
  import Storage

  datatype Transaction = Transaction(key: Bytes, value: Bytes)

  /** Reads the current state of a key. */
  function GetState(s: Storage.SimpleStorage, key: Bytes): Option<Bytes>
  {
    Storage.Get(s, key)
  }

  /** Applies one transaction. It always succeeds: afterwards the key holds
      the transaction's value and every other key is as before. */
  function Execute(s: Storage.SimpleStorage, tx: Transaction): (r: Storage.SimpleStorage)
    ensures GetState(r, tx.key) == Some(tx.value)
    ensures forall k :: k != tx.key ==> GetState(r, k) == GetState(s, k)
  {
    Storage.Put(s, tx.key, tx.value)
  }

  /** Applies a batch of transactions in order, first to last. */
  function ExecuteAll(s: Storage.SimpleStorage, txs: seq<Transaction>): Storage.SimpleStorage
  {
    if |txs| == 0 then s else Execute(ExecuteAll(s, txs[..|txs| - 1]), txs[|txs| - 1])
  }

  /** The loop that runs a batch against the storage, one `execute` per
      transaction. */
  method ExecuteBatch(s: Storage.SimpleStorage, txs: seq<Transaction>) returns (r: Storage.SimpleStorage)
    ensures r == ExecuteAll(s, txs)
  {
    r := s;
    var i := 0;
    while i < |txs|
      invariant 0 <= i <= |txs|
      invariant r == ExecuteAll(s, txs[..i])
    {
      assert txs[..i + 1][..i] == txs[..i];
      r := Execute(r, txs[i]);
      i := i + 1;
    }
    assert txs[..i] == txs;
  }

  /** After a batch, a key holds the value of the last transaction that
      wrote it. */
  lemma {:induction false} LastWriterWins(s: Storage.SimpleStorage, txs: seq<Transaction>, i: nat)
    requires i < |txs|
    requires forall j :: i < j < |txs| ==> txs[j].key != txs[i].key
    ensures GetState(ExecuteAll(s, txs), txs[i].key) == Some(txs[i].value)
  {
    var n := |txs| - 1;
    if i < n {
      var prefix := txs[..n];
      assert forall j :: i < j < |prefix| ==> prefix[j].key != prefix[i].key;
      LastWriterWins(s, prefix, i);
    }
  }

  /** A key that no transaction of the batch writes keeps its value. */
  lemma {:induction false} UnwrittenKeyUnchanged(s: Storage.SimpleStorage, txs: seq<Transaction>, key: Bytes)
    requires forall j :: 0 <= j < |txs| ==> txs[j].key != key
    ensures GetState(ExecuteAll(s, txs), key) == GetState(s, key)
  {
    if |txs| > 0 {
      UnwrittenKeyUnchanged(s, txs[..|txs| - 1], key);
    }
  }
}
