/** The inner transaction pool: pending transactions keyed by their hash.
    Inserting under a hash that is already present overwrites the entry,
    which is how the pool deduplicates resubmissions.

    The pool is generic in its key type K: the node keys it by the 32-byte
    hash of a signed transaction, but nothing here depends on that.

    The pool's `HashMap` has an unspecified iteration order. The model keeps
    one explicit enumeration of the keys, `order`, to stand for it. That
    enumeration is insertion order, which `HashMap` does not provide, so the
    contracts below state only facts that hold for every order. */
module TxPool {
  datatype Pool<K, T> = Pool(txs: map<K, T>, order: seq<K>)

  /** `order` lists every key of `txs` exactly once. */
  predicate Enumerates<K, T>(p: Pool<K, T>)
  {
    && (forall i, j :: 0 <= i < j < |p.order| ==> p.order[i] != p.order[j])
    && (forall h :: h in p.order ==> h in p.txs)
    && (forall h :: h in p.txs ==> h in p.order)
  }

  type TxPool<K, T> = p: Pool<K, T> | Enumerates(p) witness Pool(map[], [])

  /** The number of keys holding tx. */
  function KeysHolding<K, T(==)>(txs: map<K, T>, tx: T): nat
  {
    |set h | h in txs && txs[h] == tx|
  }

  /** An empty pool. */
  function New<K, T>(): (p: TxPool<K, T>)
    ensures |p.txs| == 0
    ensures GetAll(p) == []
  {
    Pool(map[], [])
  }

  /** Inserts tx under key h, as `HashMap::insert` does: the entry for h
      becomes tx, whatever it held before. */
  function Add<K, T>(p: TxPool<K, T>, h: K, tx: T): (r: TxPool<K, T>)
    ensures r.txs == p.txs[h := tx]
  {
    if h in p.txs then Pool(p.txs[h := tx], p.order) else Pool(p.txs[h := tx], p.order + [h])
  }

  /** `add` overwrites the entry for h and keeps every other entry; the pool
      grows by one exactly when h was not pending. */
  lemma AddOverwrites<K, T>(p: TxPool<K, T>, h: K, tx: T)
    ensures h in Add(p, h, tx).txs && Add(p, h, tx).txs[h] == tx
    ensures Add(p, h, tx).txs.Keys == p.txs.Keys + {h}
    ensures forall k :: k in p.txs && k != h ==> Add(p, h, tx).txs[k] == p.txs[k]
    ensures |Add(p, h, tx).txs| == if h in p.txs then |p.txs| else |p.txs| + 1
  {
  }

  /** The values of `txs` read in the given key order. */
  function ValuesIn<K, T>(txs: map<K, T>, order: seq<K>): (r: seq<T>)
    requires forall i :: 0 <= i < |order| ==> order[i] in txs
    ensures |r| == |order|
  {
    if |order| == 0 then [] else ValuesIn(txs, order[..|order| - 1]) + [txs[order[|order| - 1]]]
  }

  /** The i-th value read is the value under the i-th key. */
  lemma {:induction false} ValuesInAt<K, T>(txs: map<K, T>, order: seq<K>, i: nat)
    requires forall i :: 0 <= i < |order| ==> order[i] in txs
    requires i < |order|
    ensures ValuesIn(txs, order)[i] == txs[order[i]]
  {
    if i < |order| - 1 {
      ValuesInAt(txs, order[..|order| - 1], i);
    }
  }

  /** A snapshot of every pending transaction, one element per key; the
      pool itself is not modified. */
  function GetAll<K, T>(p: TxPool<K, T>): (r: seq<T>)
    ensures |r| == |p.txs|
  {
    DistinctCard(p);
    ValuesIn(p.txs, p.order)
  }

  /** Empties the pool. */
  function Clear<K, T>(p: TxPool<K, T>): (r: TxPool<K, T>)
    ensures |r.txs| == 0
    ensures GetAll(r) == []
  {
    Pool(map[], [])
  }

  /** A sequence without repeats has as many elements as it has distinct
      members. */
  lemma {:induction false} DistinctSeqCard<K>(s: seq<K>)
    requires forall i, j :: 0 <= i < j < |s| ==> s[i] != s[j]
    ensures |set h | h in s| == |s|
  {
    if |s| > 0 {
      var prefix := s[..|s| - 1];
      var last := s[|s| - 1];
      DistinctSeqCard(prefix);
      assert (set h | h in s) == (set h | h in prefix) + {last};
      assert last !in prefix;
    }
  }

  lemma DistinctCard<K, T>(p: TxPool<K, T>)
    ensures |p.txs| == |p.order|
  {
    DistinctSeqCard(p.order);
    assert p.txs.Keys == set h | h in p.order;
  }

  /** Counting occurrences: a transaction occurs in the values read along a
      repeat-free key order once per key that holds it. */
  lemma {:induction false} ValuesInCount<K, T>(txs: map<K, T>, order: seq<K>, tx: T)
    requires forall i :: 0 <= i < |order| ==> order[i] in txs
    requires forall i, j :: 0 <= i < j < |order| ==> order[i] != order[j]
    ensures multiset(ValuesIn(txs, order))[tx] == |set h | h in txs && h in order && txs[h] == tx|
  {
    if |order| > 0 {
      var prefix := order[..|order| - 1];
      var last := order[|order| - 1];
      ValuesInCount(txs, prefix, tx);
      assert order == prefix + [last];
      HoldersSplit(txs, prefix, last, tx);
    }
  }

  /** Extending a repeat-free key order by one new key adds that key to the
      holders of tx exactly when it holds tx. */
  lemma HoldersSplit<K, T>(txs: map<K, T>, prefix: seq<K>, last: K, tx: T)
    requires last in txs && last !in prefix
    ensures |set h | h in txs && h in prefix + [last] && txs[h] == tx|
         == |set h | h in txs && h in prefix && txs[h] == tx| + (if txs[last] == tx then 1 else 0)
  {
    var before := set h | h in txs && h in prefix && txs[h] == tx;
    var after := set h | h in txs && h in prefix + [last] && txs[h] == tx;
    assert after == before + (if txs[last] == tx then {last} else {});
  }

  /** The snapshot holds each pending transaction once per hash it is stored
      under. */
  lemma GetAllCounts<K, T>(p: TxPool<K, T>, tx: T)
    ensures multiset(GetAll(p))[tx] == KeysHolding(p.txs, tx)
  {
    ValuesInCount(p.txs, p.order, tx);
    assert (set h | h in p.txs && h in p.order && p.txs[h] == tx) == (set h | h in p.txs && p.txs[h] == tx);
  }

  /** The snapshot holds exactly the pending transactions. */
  lemma GetAllMembers<K, T>(p: TxPool<K, T>, tx: T)
    ensures tx in GetAll(p) <==> tx in p.txs.Values
  {
    var r := GetAll(p);
    if tx in r {
      var i :| 0 <= i < |r| && r[i] == tx;
      ValuesInAt(p.txs, p.order, i);
    }
    if tx in p.txs.Values {
      var h :| h in p.txs && p.txs[h] == tx;
      var i :| 0 <= i < |p.order| && p.order[i] == h;
      ValuesInAt(p.txs, p.order, i);
      assert r[i] == tx;
    }
  }

  /** After `add(h, tx)` the snapshot contains tx. */
  lemma AddedIsPending<K, T>(p: TxPool<K, T>, h: K, tx: T)
    ensures tx in GetAll(Add(p, h, tx))
  {
    GetAllMembers(Add(p, h, tx), tx);
  }

  /** Adding the same transaction under the same hash twice has the effect
      of adding it once; starting from an empty pool it leaves one entry. */
  lemma AddTwiceKeepsOne<K, T>(p: TxPool<K, T>, h: K, tx: T)
    ensures Add(Add(p, h, tx), h, tx) == Add(p, h, tx)
    ensures |GetAll(Add(Add(New(), h, tx), h, tx))| == 1
  {
    var q := Add(p, h, tx);
    assert q.txs[h := tx] == q.txs;
    var e: TxPool<K, T> := New();
    AddOverwrites(e, h, tx);
    AddOverwrites(Add(e, h, tx), h, tx);
  }

  /** Inserts the pairs one after another. */
  function AddAll<K, T>(p: TxPool<K, T>, entries: seq<(K, T)>): TxPool<K, T>
  {
    if |entries| == 0 then p
    else
      var last := entries[|entries| - 1];
      Add(AddAll(p, entries[..|entries| - 1]), last.0, last.1)
  }

  /** The pairs' hashes are pairwise distinct and none is already pending. */
  predicate FreshKeys<K, T>(p: TxPool<K, T>, entries: seq<(K, T)>)
  {
    && (forall i, j :: 0 <= i < j < |entries| ==> entries[i].0 != entries[j].0)
    && (forall i :: 0 <= i < |entries| ==> entries[i].0 !in p.txs)
  }

  /** Adding N transactions with pairwise-distinct new hashes grows the pool
      by exactly N, whatever order they arrive in. */
  lemma {:induction false} AddAllFreshCount<K, T>(p: TxPool<K, T>, entries: seq<(K, T)>)
    requires FreshKeys(p, entries)
    ensures |AddAll(p, entries).txs| == |p.txs| + |entries|
    ensures |GetAll(AddAll(p, entries))| == |GetAll(p)| + |entries|
  {
    if |entries| > 0 {
      var prefix := entries[..|entries| - 1];
      var last := entries[|entries| - 1];
      assert FreshKeys(p, prefix);
      AddAllFreshCount(p, prefix);
      var q := AddAll(p, prefix);
      assert |q.txs| == |p.txs| + |prefix|;
      AddAllOnlyNamedKeys(p, prefix, last.0);
      AddOverwrites(q, last.0, last.1);
      assert AddAll(p, entries) == Add(q, last.0, last.1);
    }
    assert |GetAll(AddAll(p, entries))| == |AddAll(p, entries).txs|;
  }

  /** A run of inserts adds no key other than the ones it names. */
  lemma {:induction false} AddAllOnlyNamedKeys<K, T>(p: TxPool<K, T>, entries: seq<(K, T)>, k: K)
    requires k !in p.txs
    requires forall i :: 0 <= i < |entries| ==> entries[i].0 != k
    ensures k !in AddAll(p, entries).txs
  {
    if |entries| > 0 {
      AddAllOnlyNamedKeys(p, entries[..|entries| - 1], k);
    }
  }

  /** Inserts under different hashes commute on the entries: concurrent
      producers leave the same hash-to-transaction map whatever the
      interleaving. The snapshot's order, and with it the mined block's
      transaction order and hash, may differ. */
  lemma AddCommutes<K, T>(p: TxPool<K, T>, h1: K, t1: T, h2: K, t2: T)
    requires h1 != h2
    ensures Add(Add(p, h1, t1), h2, t2).txs == Add(Add(p, h2, t2), h1, t1).txs
  {
    assert p.txs[h1 := t1][h2 := t2] == p.txs[h2 := t2][h1 := t1];
  }
}
