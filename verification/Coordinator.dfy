/** The client side of a transaction: buffering reads and writes per shard, and counting votes
    (distributed/store/strongstore/client.cc, distributed/store/common/frontend/bufferclient.cc). */
module Coordinator {
  import opened Transactions
  import opened OccStore
  import opened TwoPhaseCommit

  const OK := 0
  const FAIL := 1

  /** A shard's answer to a prepare: its status and its timestamp. */
  datatype Answer = Answer(status: nat, time: nat)

  /** Counting the answers: committed only if every status is OK; a FAIL wins over any other refusal; the
      timestamp is the largest of all. */
  method CountAnswers(answers: seq<Answer>, start: nat) returns (status: nat, ts: nat)
    ensures status == OK <==> forall i :: 0 <= i < |answers| ==> answers[i].status == OK
    ensures status == FAIL <==> exists i :: 0 <= i < |answers| && answers[i].status == FAIL
    ensures status != OK && status != FAIL ==>
      exists i :: (
        && 0 <= i < |answers| && answers[i].status == status
        && forall j :: i < j < |answers| ==> answers[j].status == OK)
    ensures ts >= start && (forall i :: 0 <= i < |answers| ==> answers[i].time <= ts)
    ensures ts == start || exists i :: 0 <= i < |answers| && answers[i].time == ts
  {
    status, ts := OK, start;
    for n := 0 to |answers|
      invariant status == OK <==> forall i :: 0 <= i < n ==> answers[i].status == OK
      invariant status == FAIL <==> exists i :: 0 <= i < n && answers[i].status == FAIL
      invariant status != OK && status != FAIL ==>
        exists i :: (
          && 0 <= i < n && answers[i].status == status
          && forall j :: i < j < n ==> answers[j].status == OK)
      invariant ts >= start && (forall i :: 0 <= i < n ==> answers[i].time <= ts)
      invariant ts == start || exists i :: 0 <= i < n && answers[i].time == ts
    {
      if answers[n].status != OK && status != FAIL {
        status := answers[n].status;
      }
      if answers[n].time > ts {
        ts := answers[n].time;
      }
    }
  }

  /** One call of a client since it began the transaction. */
  datatype Op = Got(key: Key) | Wrote(key: Key, value: Value)

  ghost predicate Writes(ops: seq<Op>, i: int, k: Key) { 0 <= i < |ops| && ops[i].Wrote? && ops[i].key == k }

  ghost predicate LastWrite(ops: seq<Op>, i: int, k: Key) {
    Writes(ops, i, k) && forall j :: i < j ==> !Writes(ops, j, k)
  }

  /** A key that is got before the transaction has written it is read at commit; later its own write is used. */
  ghost predicate ReadsStored(ops: seq<Op>, i: int, k: Key) {
    0 <= i < |ops| && ops[i] == Got(k) && forall j :: j < i ==> !Writes(ops, j, k)
  }

  /** The transaction that the calls have gathered: each key with its last written value, and as reads exactly the
      keys that were got before any write of them. */
  ghost predicate Gathered(ops: seq<Op>, txn: Txn) {
    && (forall k :: k in txn.writeSet <==> exists i :: Writes(ops, i, k))
    && (forall i, k :: LastWrite(ops, i, k) ==> k in txn.writeSet && txn.writeSet[k] == ops[i].value)
    && (forall k :: k in txn.readSet <==> exists i :: ReadsStored(ops, i, k))
  }

  /** There is one such transaction only. */
  lemma GatheredIsOne(ops: seq<Op>, a: Txn, b: Txn)
    requires Gathered(ops, a) && Gathered(ops, b)
    ensures a == b
  {
    forall k | k in a.writeSet ensures k in b.writeSet && a.writeSet[k] == b.writeSet[k] {
      var i :| Writes(ops, i, k);
      var last := SomeLastWrite(ops, i, k);
    }
    assert a.writeSet.Keys == b.writeSet.Keys;
    assert a.readSet == b.readSet;
  }

  lemma {:induction false} SomeLastWrite(ops: seq<Op>, i: int, k: Key) returns (last: int)
    requires Writes(ops, i, k)
    ensures LastWrite(ops, last, k)
    decreases |ops| - i
  {
    if j :| i < j && Writes(ops, j, k) { last := SomeLastWrite(ops, j, k); } else { last := i; }
  }

  lemma GatheredWrite(ops: seq<Op>, txn: Txn, key: Key, value: Value)
    requires Gathered(ops, txn)
    ensures Gathered(ops + [Wrote(key, value)], txn.(writeSet := txn.writeSet[key := value]))
  {
    var ops', txn' := ops + [Wrote(key, value)], txn.(writeSet := txn.writeSet[key := value]);
    assert Writes(ops', |ops|, key);
    forall i, k ensures Writes(ops', i, k) <==> Writes(ops, i, k) || (i == |ops| && k == key) {}
    forall i, k | LastWrite(ops', i, k) ensures k in txn'.writeSet && txn'.writeSet[k] == ops'[i].value {
      if k != key { assert LastWrite(ops, i, k); }
    }
    forall i, k ensures ReadsStored(ops', i, k) <==> ReadsStored(ops, i, k) {}
  }

  lemma GatheredRead(ops: seq<Op>, txn: Txn, key: Key)
    requires Gathered(ops, txn)
    ensures Gathered(ops + [Got(key)], if key in txn.writeSet then txn else txn.(readSet := txn.readSet + {key}))
  {
    var ops' := ops + [Got(key)];
    forall i, k ensures Writes(ops', i, k) <==> Writes(ops, i, k) {}
    forall i, k ensures LastWrite(ops', i, k) <==> LastWrite(ops, i, k) {}
    forall i, k
      ensures ReadsStored(ops', i, k) <==> ReadsStored(ops, i, k) || (i == |ops| && k == key && k !in txn.writeSet)
    {
    }
    assert key !in txn.writeSet ==> ReadsStored(ops', |ops|, key);
  }

  /** A write changes the part of its key's shard only. */
  lemma WriteInPart(txn: Txn, key: Key, value: Value, s: nat, nshards: nat)
    requires nshards > 0
    ensures var was, now := Part(txn, s, nshards), Part(txn.(writeSet := txn.writeSet[key := value]), s, nshards);
            now == if s == ShardOf(key, nshards) then was.(writeSet := was.writeSet[key := value]) else was
  {
    var was, now := Part(txn, s, nshards), Part(txn.(writeSet := txn.writeSet[key := value]), s, nshards);
    assert now.writeSet == if s == ShardOf(key, nshards) then was.writeSet[key := value] else was.writeSet;
  }

  class Client {
    const nshards: nat
    var tid: Tid
    var participants: set<nat>
    var buffers: map<nat, Txn>
    /** The calls since the transaction began, and what they have gathered over all shards. */
    ghost var ops: seq<Op>
    ghost var txn: Txn

    /** Each shard's buffer is its part of the transaction, and every shard it needs has been contacted. */
    ghost predicate Valid() reads this {
      && nshards > 0 && (forall s :: s in buffers <==> 0 <= s < nshards)
      && (forall s :: s in buffers ==> buffers[s] == Part(txn, s, nshards))
      && Contacted(Job(participants, txn), nshards)
      && Gathered(ops, txn)
    }

    constructor (nshards: nat, clientId: nat)
      requires nshards > 0
      ensures this.nshards == nshards && Valid() && ops == [] && participants == {}
      ensures tid == clientId / 10000 * 10000
    {
      this.nshards := nshards;
      tid := clientId / 10000 * 10000;
      participants := {};
      var empty: map<nat, Txn> := map[];
      for i := 0 to nshards
        invariant forall s :: s in empty <==> 0 <= s < i
        invariant forall s :: s in empty ==> empty[s] == EMPTY
      {
        empty := empty[i := EMPTY];
      }
      buffers := empty;
      ops, txn := [], EMPTY;
    }

    method Begin()
      requires Valid()
      modifies this
      ensures Valid() && ops == [] && txn == EMPTY && participants == {} && tid == old(tid) + 1
    {
      tid := tid + 1;
      participants := {};
      ops, txn := [], EMPTY;
      for i := 0 to nshards
        invariant tid == old(tid) + 1 && participants == {} && ops == [] && txn == EMPTY
        invariant forall s :: s in buffers <==> 0 <= s < nshards
        invariant forall s :: 0 <= s < i ==> buffers[s] == EMPTY
      {
        buffers := buffers[i := EMPTY];
      }
    }

    /** The key is read at commit, unless the transaction has written it. */
    method Get(key: Key)
      requires Valid()
      modifies this
      ensures Valid() && tid == old(tid) && ops == old(ops) + [Got(key)]
      ensures txn.writeSet == old(txn.writeSet)
      ensures txn.readSet == old(txn.readSet) + if key in old(txn.writeSet) then {} else {key}
      ensures participants == old(participants) + {ShardOf(key, nshards)}
    {
      var i := KeyToShard(key, nshards);
      participants := participants + {i};
      if key !in buffers[i].writeSet {
        if key !in buffers[i].readSet {
          buffers := buffers[i := buffers[i].(readSet := buffers[i].readSet + {key})];
        }
      }
      GatheredRead(ops, txn, key);
      ops := ops + [Got(key)];
      txn := if key in txn.writeSet then txn else txn.(readSet := txn.readSet + {key});
    }

    /** The key's shard has the write in its buffer; all else is as before. */
    method Put(key: Key, value: Value)
      requires Valid()
      modifies this
      ensures Valid() && tid == old(tid) && ops == old(ops) + [Wrote(key, value)]
      ensures txn.writeSet == old(txn.writeSet)[key := value] && txn.readSet == old(txn.readSet)
      ensures var s := ShardOf(key, nshards);
              s in buffers && key in buffers[s].writeSet && buffers[s].writeSet[key] == value
      ensures participants == old(participants) + {ShardOf(key, nshards)}
    {
      var i := KeyToShard(key, nshards);
      participants := participants + {i};
      buffers := buffers[i := buffers[i].(writeSet := buffers[i].writeSet[key := value])];
      ghost var after := txn.(writeSet := txn.writeSet[key := value]);
      forall s | s in buffers ensures buffers[s] == Part(after, s, nshards) {
        WriteInPart(txn, key, value, s, nshards);
      }
      GatheredWrite(ops, txn, key, value);
      ops, txn := ops + [Wrote(key, value)], after;
    }

    /** The prepare messages are those of the step system, for the transaction gathered so far. */
    method SendPrepares(ghost sys: System) returns (net: set<Msg>)
      requires Valid() && sys.nshards == nshards && tid in sys.jobs && sys.jobs[tid] == Job(participants, txn)
      ensures forall m :: m in net <==>
                m.To? && m.shard in participants && m.request == PrepareRequest(tid, Part(txn, m.shard, nshards))
      ensures net == Prepares(sys, tid)
    {
      net := {};
      var rest := participants;
      while rest != {}
        invariant rest <= participants
        invariant forall m :: m in net <==>
          m.To? && m.shard in participants - rest && m.request == PrepareRequest(tid, PartOf(sys, tid, m.shard))
      {
        var p :| p in rest;
        rest := rest - {p};
        net := net + {To(p, PrepareRequest(tid, buffers[p]))};
      }
    }

    /** The end of a commit: commits to all participants when every answer is OK, aborts to all otherwise. */
    method Decide(ghost sys: System, answers: seq<Answer>) returns (committed: bool, net: set<Msg>)
      requires tid in sys.jobs && sys.jobs[tid].participants == participants
      ensures committed <==> forall i :: 0 <= i < |answers| ==> answers[i].status == OK
      ensures forall m :: m in net <==>
                && m.To? && m.shard in participants
                && m.request == if committed then CommitRequest(tid) else AbortRequest(tid)
      ensures net == if committed then Commits(sys, tid) else Aborts(sys, tid)
    {
      var status, ts := CountAnswers(answers, 0);
      committed := status == OK;
      if committed {
        net := Broadcast(participants, CommitRequest(tid));
      } else {
        net := Broadcast(participants, AbortRequest(tid));
      }
    }
  }

  method Broadcast(participants: set<nat>, request: Request) returns (net: set<Msg>)
    ensures net == set s | s in participants :: To(s, request)
  {
    net := {};
    var rest := participants;
    while rest != {}
      invariant rest <= participants
      invariant forall m :: m in net <==> m.To? && m.shard in participants - rest && m.request == request
    {
      var p :| p in rest;
      rest := rest - {p};
      net := net + {To(p, request)};
    }
  }
}
