/** Transactions and the shard side of the commit protocol (distributed/store/strongstore/occstore.cc,
    distributed/exes/strong-server.cc). A shard's ledger is abstracted to a map from key to value. */
module Transactions {
  import opened Codec

  type Key = Bytes
  type Value = Bytes
  type Tid = nat

  /** The read set holds keys only: the read times kept beside them are never consulted. */
  datatype Txn = Txn(readSet: set<Key>, writeSet: map<Key, Value>)

  const EMPTY := Txn({}, map[])

  datatype Found = Absent | Found(value: Value)

  function Get(data: map<Key, Value>, k: Key): Found {
    if k in data then Found(data[k]) else Absent
  }

  function ReadAll(data: map<Key, Value>, keys: set<Key>): map<Key, Found> {
    map k | k in keys :: Get(data, k)
  }

  /** `k` is written by one of the two and read or written by the other. */
  predicate ClashAt(a: Txn, b: Txn, k: Key) {
    || (k in a.readSet && k in b.writeSet)
    || (k in a.writeSet && (k in b.readSet || k in b.writeSet))
  }

  ghost predicate Conflict(a: Txn, b: Txn) {
    exists k :: ClashAt(a, b, k)
  }

  const WORD := 0x1_0000_0000_0000_0000

  /** `char` is signed, so a byte above 127 is extended with its sign before it is added. */
  function Extended(c: Byte): nat { if c < 128 then c else WORD - 256 + c }

  function Djb2(key: Key): nat {
    if key == [] then 5381 else (33 * Djb2(key[..|key| - 1]) + Extended(key[|key| - 1])) % WORD
  }

  function Power33(n: nat): nat { if n == 0 then 1 else 33 * Power33(n - 1) }

  /** The bytes of the key, each multiplied by 33 for every byte behind it. */
  function Weighted(key: Key): nat {
    if key == [] then 0 else Extended(key[0]) * Power33(|key| - 1) + Weighted(key[1..])
  }

  lemma {:induction false} WeightedMore(key: Key, c: Byte)
    ensures Weighted(key + [c]) == 33 * Weighted(key) + Extended(c)
  {
    if key == [] {
      assert key + [c] == [c] && [c][1..] == [];
    } else {
      WeightedMore(key[1..], c);
      assert (key + [c])[1..] == key[1..] + [c] && (key + [c])[0] == key[0];
      TimesPower(Extended(key[0]), Power33(|key| - 1));
    }
  }

  lemma TimesPower(e: nat, p: nat)
    ensures e * (33 * p) == 33 * (e * p)
  {
  }

  /** Wrapping around at every step is the same as wrapping the whole sum around once. */
  lemma {:induction false} Djb2Is(key: Key)
    ensures Djb2(key) == (5381 * Power33(|key|) + Weighted(key)) % WORD
  {
    if key != [] {
      var n := |key| - 1;
      Djb2Is(key[..n]);
      WeightedMore(key[..n], key[n]);
      assert key[..n] + [key[n]] == key;
      WrapOnce(5381 * Power33(n) + Weighted(key[..n]), Extended(key[n]));
    }
  }

  lemma WrapOnce(sum: nat, byte: nat)
    ensures (33 * (sum % WORD) + byte) % WORD == (33 * sum + byte) % WORD
  {
    assert sum == sum / WORD * WORD + sum % WORD;
  }

  function ShardOf(key: Key, nshards: nat): (shard: nat)
    requires nshards > 0
    ensures shard < nshards
  {
    Djb2(key) % nshards
  }

  /** The sum of the shifted hash and the hash is 33 times the hash. */
  lemma TimesThirtyThree(hash: nat, byte: nat)
    ensures ((hash * 32) % WORD + hash + byte) % WORD == (33 * hash + byte) % WORD
  {
    assert hash * 32 == (hash * 32) / WORD * WORD + (hash * 32) % WORD;
  }

  method KeyToShard(key: Key, nshards: nat) returns (shard: nat)
    requires nshards > 0
    ensures shard == ShardOf(key, nshards)
  {
    var hash := 5381;
    for i := 0 to |key|
      invariant hash == Djb2(key[..i])
    {
      assert key[..i + 1][..i] == key[..i];
      TimesThirtyThree(hash, Extended(key[i]));
      hash := ((hash * 32) % WORD + hash + Extended(key[i])) % WORD;
    }
    assert key[..|key|] == key;
    shard := hash % nshards;
  }
}

module OccStore {
  import opened Transactions

  /** What a shard holds: the transactions it has voted for and its data. */
  datatype Shard = Shard(prepared: map<Tid, Txn>, data: map<Key, Value>)

  function PreparedWrites(prepared: map<Tid, Txn>): set<Key> {
    set t, k | t in prepared && k in prepared[t].writeSet :: k
  }

  function PreparedReads(prepared: map<Tid, Txn>): set<Key> {
    set t, k | t in prepared && k in prepared[t].readSet :: k
  }

  lemma GatheredOneMore(prepared: map<Tid, Txn>, rest: set<Tid>, t: Tid)
    requires t in rest && rest <= prepared.Keys
    ensures PreparedWrites(prepared - (rest - {t})) == PreparedWrites(prepared - rest) + prepared[t].writeSet.Keys
    ensures PreparedReads(prepared - (rest - {t})) == PreparedReads(prepared - rest) + prepared[t].readSet
  {
    var was, now := prepared - rest, prepared - (rest - {t});
    assert now == was[t := prepared[t]];
    forall k | k in PreparedWrites(now)
      ensures k in PreparedWrites(was) + prepared[t].writeSet.Keys
    {
      var u :| u in now && k in now[u].writeSet;
      assert u != t ==> u in was && k in was[u].writeSet;
    }
    forall k | k in PreparedReads(now)
      ensures k in PreparedReads(was) + prepared[t].readSet
    {
      var u :| u in now && k in now[u].readSet;
      assert u != t ==> u in was && k in was[u].readSet;
    }
    assert forall u :: u in was ==> u in now && now[u] == was[u];
    assert now[t] == prepared[t];
  }

  ghost predicate Admissible(prepared: map<Tid, Txn>, txn: Txn) {
    forall t :: t in prepared ==> !Conflict(txn, prepared[t])
  }

  /** The two gathered sets decide conflict with every prepared transaction at once. */
  lemma GatheredSetsDecide(prepared: map<Tid, Txn>, txn: Txn)
    ensures Admissible(prepared, txn) <==>
      && txn.readSet * PreparedWrites(prepared) == {}
      && txn.writeSet.Keys * (PreparedReads(prepared) + PreparedWrites(prepared)) == {}
  {
    var writes, readwrites := PreparedWrites(prepared), PreparedReads(prepared) + PreparedWrites(prepared);
    if !Admissible(prepared, txn) {
      var t :| t in prepared && Conflict(txn, prepared[t]);
      var k :| ClashAt(txn, prepared[t], k);
      assert k in txn.readSet * writes || k in txn.writeSet.Keys * readwrites;
    }
    if k :| k in txn.readSet * writes {
      var t :| t in prepared && k in prepared[t].writeSet;
      assert ClashAt(txn, prepared[t], k);
    }
    if k :| k in txn.writeSet.Keys * readwrites {
      var t :| t in prepared && (k in prepared[t].readSet || k in prepared[t].writeSet);
      assert ClashAt(txn, prepared[t], k);
    }
  }

  /** The vote: yes when already prepared, or when nothing prepared conflicts. */
  ghost predicate Votes(s: Shard, id: Tid, txn: Txn) {
    id in s.prepared || Admissible(s.prepared, txn)
  }

  ghost function Prepared(s: Shard, id: Tid, txn: Txn): Shard {
    if id !in s.prepared && Admissible(s.prepared, txn) then s.(prepared := s.prepared[id := txn]) else s
  }

  function Aborted(s: Shard, id: Tid): Shard {
    s.(prepared := s.prepared - {id})
  }

  function Committed(s: Shard, id: Tid): Shard
    requires id in s.prepared
  {
    Shard(s.prepared - {id}, s.data + s.prepared[id].writeSet)
  }

  /** No two prepared transactions conflict. */
  ghost predicate Compatible(prepared: map<Tid, Txn>) {
    forall t, u :: t in prepared && u in prepared && t != u ==> !Conflict(prepared[t], prepared[u])
  }

  lemma PrepareKeepsCompatible(s: Shard, id: Tid, txn: Txn)
    requires Compatible(s.prepared)
    ensures Compatible(Prepared(s, id, txn).prepared)
  {
    var after := Prepared(s, id, txn).prepared;
    forall t, u | t in after && u in after && t != u
      ensures !Conflict(after[t], after[u])
    {
      forall k ensures !ClashAt(after[t], after[u], k) {
        assert ClashAt(after[t], after[u], k) <==> ClashAt(after[u], after[t], k);
      }
    }
  }

  datatype Request = PrepareRequest(id: Tid, txn: Txn) | CommitRequest(id: Tid) | AbortRequest(id: Tid)

  /** `ok` is status 0; `values` are the reads that a commit reports. */
  datatype Reply = Reply(ok: bool, values: map<Key, Found>)

  class OCCStore {
    var prepared: map<Tid, Txn>
    var data: map<Key, Value>

    function State(): Shard reads this { Shard(prepared, data) }

    constructor (data: map<Key, Value>)
      ensures State() == Shard(map[], data)
    {
      prepared := map[];
      this.data := data;
    }

    method GetPreparedWrites() returns (writes: set<Key>)
      ensures writes == PreparedWrites(prepared)
    {
      writes := {};
      var rest := prepared.Keys;
      while rest != {}
        invariant rest <= prepared.Keys
        invariant writes == PreparedWrites(prepared - rest)
      {
        var t :| t in rest;
        GatheredOneMore(prepared, rest, t);
        rest := rest - {t};
        writes := AddKeys(writes, prepared[t].writeSet.Keys);
      }
      assert prepared - rest == prepared;
    }

    method GetPreparedReadWrites() returns (readwrites: set<Key>)
      ensures readwrites == PreparedReads(prepared) + PreparedWrites(prepared)
    {
      readwrites := {};
      var rest := prepared.Keys;
      while rest != {}
        invariant rest <= prepared.Keys
        invariant readwrites == PreparedReads(prepared - rest) + PreparedWrites(prepared - rest)
      {
        var t :| t in rest;
        GatheredOneMore(prepared, rest, t);
        rest := rest - {t};
        readwrites := AddKeys(readwrites, prepared[t].writeSet.Keys);
        readwrites := AddKeys(readwrites, prepared[t].readSet);
      }
      assert prepared - rest == prepared;
    }

    /** Releases the transaction, and leaves every other one and the data alone. */
    method Abort(id: Tid)
      modifies this
      ensures id !in prepared && data == old(data)
      ensures forall t :: t != id ==>
                (t in prepared <==> t in old(prepared)) && (t in prepared ==> prepared[t] == old(prepared)[t])
      ensures State() == Aborted(old(State()), id)
    {
      prepared := prepared - {id};
    }

    /** Yes, and held from then on, if it is prepared already or conflicts with nothing that is. */
    method Prepare(id: Tid, txn: Txn) returns (ok: bool)
      modifies this
      ensures ok <==> id in old(prepared) || forall t :: t in old(prepared) ==> !Conflict(txn, old(prepared)[t])
      ensures prepared == (if ok && id !in old(prepared) then old(prepared)[id := txn] else old(prepared))
      ensures data == old(data)
      ensures ok == Votes(old(State()), id, txn) && State() == Prepared(old(State()), id, txn)
    {
      if id in prepared { return true; }
      var pWrites := GetPreparedWrites();
      var pRW := GetPreparedReadWrites();
      GatheredSetsDecide(prepared, txn);
      var clash := Meets(txn.readSet, pWrites);
      if clash {
        Abort(id);
        assert prepared == old(prepared);
        return false;
      }
      clash := Meets(txn.writeSet.Keys, pRW);
      if clash {
        Abort(id);
        assert prepared == old(prepared);
        return false;
      }
      prepared := prepared[id := txn];
      return true;
    }

    /** Commit of a stored procedure: the reads happen here, before the writes. */
    method Commit(id: Tid) returns (values: map<Key, Found>)
      requires id in prepared
      modifies this
      ensures prepared == old(prepared) - {id} && data == old(data) + old(prepared)[id].writeSet
      ensures values.Keys == old(prepared)[id].readSet
      ensures forall k :: k in values ==> values[k] == if k in old(data) then Found(old(data)[k]) else Absent
      ensures State() == Committed(old(State()), id) && values == ReadAll(old(data), old(prepared)[id].readSet)
    {
      var txn := prepared[id];
      values := map[];
      if txn.readSet != {} {
        values := BatchGet(data, txn.readSet);
      }
      if txn.writeSet != map[] {
        data := Put(data, txn.writeSet);
      }
      prepared := prepared - {id};
    }

    /** Commit outside stored-procedure mode: no reads, and an unknown id commits an empty transaction. */
    method CommitWrites(id: Tid)
      modifies this
      ensures prepared == old(prepared) - {id}
      ensures data == old(data) + if id in old(prepared) then old(prepared)[id].writeSet else map[]
    {
      var txn := if id in prepared then prepared[id] else EMPTY;
      data := Put(data, txn.writeSet);
      prepared := prepared - {id};
    }
  }

  method AddKeys(acc: set<Key>, keys: set<Key>) returns (all: set<Key>)
    ensures all == acc + keys
  {
    all := acc;
    var rest := keys;
    while rest != {}
      invariant rest <= keys
      invariant all == acc + (keys - rest)
    {
      var k :| k in rest;
      rest := rest - {k};
      all := all + {k};
    }
  }

  method Meets(keys: set<Key>, others: set<Key>) returns (clash: bool)
    ensures clash <==> keys * others != {}
  {
    var rest := keys;
    while rest != {}
      invariant rest <= keys && (keys - rest) * others == {}
    {
      var k :| k in rest;
      rest := rest - {k};
      if k in others {
        assert k in keys * others;
        return true;
      }
    }
    return false;
  }

  method BatchGet(data: map<Key, Value>, keys: set<Key>) returns (values: map<Key, Found>)
    ensures values == ReadAll(data, keys)
  {
    values := map[];
    var rest := keys;
    while rest != {}
      invariant rest <= keys
      invariant values == ReadAll(data, keys - rest)
    {
      var k :| k in rest;
      rest := rest - {k};
      values := values[k := Get(data, k)];
    }
  }

  method Put(data: map<Key, Value>, writes: map<Key, Value>) returns (after: map<Key, Value>)
    ensures after == data + writes
  {
    after := data;
    var rest := writes.Keys;
    while rest != {}
      invariant rest <= writes.Keys
      invariant after == data + (writes - rest)
    {
      var k :| k in rest;
      rest := rest - {k};
      after := after[k := writes[k]];
    }
    assert writes - rest == writes;
  }

  /** The server's dispatch, in stored-procedure mode. A commit whose transaction is not prepared hits the
      store's assertion, which ends the process. */
  datatype Outcome = Replied(reply: Reply, shard: Shard) | Halted

  ghost function Serve(s: Shard, request: Request): Outcome {
    match request
    case PrepareRequest(id, txn) => Replied(Reply(Votes(s, id, txn), map[]), Prepared(s, id, txn))
    case CommitRequest(id) =>
      if id !in s.prepared then Halted
      else Replied(Reply(true, ReadAll(s.data, s.prepared[id].readSet)), Committed(s, id))
    case AbortRequest(id) => Replied(Reply(true, map[]), Aborted(s, id))
  }

  /** The dispatch over the stored state. A failed prepare is the only request that is not replicated. */
  method LeaderUpcall(store: OCCStore, request: Request) returns (replicate: bool, reply: Reply)
    requires Serve(store.State(), request) != Halted
    modifies store
    ensures Serve(old(store.State()), request) == Replied(reply, store.State())
    ensures !replicate <==> request.PrepareRequest? && !reply.ok
  {
    match request
    case PrepareRequest(id, txn) =>
      var ok := store.Prepare(id, txn);
      replicate, reply := ok, Reply(ok, map[]);
    case CommitRequest(id) =>
      var values := store.Commit(id);
      replicate, reply := true, Reply(true, values);
    case AbortRequest(id) =>
      store.Abort(id);
      replicate, reply := true, Reply(true, map[]);
  }
}
