/** `SimpleStorage`: the node's in-memory key-value database, a map from
    byte-string keys to byte-string values. A value of the datatype is one
    state of the database; `put` returns the next state. */
module Storage {
  import opened Primitives

  datatype SimpleStorage = SimpleStorage(db: map<Bytes, Bytes>)

  /** Looks a key up; None when the key was never written. */
  function Get(s: SimpleStorage, key: Bytes): Option<Bytes>
  {
    if key in s.db then Some(s.db[key]) else None
  }

  /** A new, empty database: no key holds a value. */
  function New(): (s: SimpleStorage)
    ensures forall key :: Get(s, key) == None
  {
    SimpleStorage(map[])
  }

  /** Inserts a pair, replacing any value the key held before. */
  function Put(s: SimpleStorage, key: Bytes, value: Bytes): (r: SimpleStorage)
    ensures Get(r, key) == Some(value)
    ensures forall k :: k != key ==> Get(r, k) == Get(s, k)
    ensures r.db.Keys == s.db.Keys + {key}
  {
    SimpleStorage(s.db[key := value])
  }

  /** Two states that answer every lookup alike are the same state, so the
      lookups are a complete description of a database. */
  lemma {:induction false} GetDetermines(s: SimpleStorage, t: SimpleStorage)
    requires forall key :: Get(s, key) == Get(t, key)
    ensures s == t
  {
    forall key | key in s.db
      ensures key in t.db && s.db[key] == t.db[key]
    {
      assert Get(s, key) == Get(t, key);
    }
    forall key | key in t.db
      ensures key in s.db
    {
      assert Get(s, key) == Get(t, key);
    }
  }

  /** The last writer wins: a second put to the same key discards the first. */
  lemma PutOverwrites(s: SimpleStorage, key: Bytes, v1: Bytes, v2: Bytes)
    ensures Put(Put(s, key, v1), key, v2) == Put(s, key, v2)
  {
  }

  /** Writing the same pair twice leaves the same state as writing it once. */
  lemma PutIdempotent(s: SimpleStorage, key: Bytes, value: Bytes)
    ensures Put(Put(s, key, value), key, value) == Put(s, key, value)
  {
  }

  /** Writes to different keys do not interfere, in either order. */
  lemma PutCommutes(s: SimpleStorage, k1: Bytes, v1: Bytes, k2: Bytes, v2: Bytes)
    requires k1 != k2
    ensures Put(Put(s, k1, v1), k2, v2) == Put(Put(s, k2, v2), k1, v1)
  {
  }
}
