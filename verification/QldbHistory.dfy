/** QLDB with its documents' versions (ledger/qldb/qldb.cc): the ledger of blocks, and the tables of current documents
    and of all versions, each kept in a B+-tree and seen here as the map that the tree refines. */
module QldbHistory {
  import opened Options
  import opened Codec
  import opened Hashing
  import opened Merkle
  import opened Documents
  import opened QldbDigest

  /** The key `<key>|<version>` of the table of versions. */
  datatype VersionKey = VersionKey(key: Bytes, number: nat)

  datatype Tables = Tables(current: map<Bytes, Document>, versions: map<VersionKey, Document>)

  /** What has been set so far: for each key its document after each batch that set it, oldest first. */
  type Past = map<Bytes, seq<Document>>

  ghost function VersionsOf(past: Past, k: Bytes): seq<Document> { if k in past then past[k] else [] }

  /** The documents of a batch, each in order with the number of batches that have set its key before. */
  ghost function NewDocs(name: Bytes, seqNo: nat, past: Past, keys: seq<Bytes>, vals: seq<Bytes>, now: nat)
    : seq<Document>
    requires |keys| == |vals|
  {
    seq(|keys|, i requires 0 <= i < |keys| =>
      Document(name, seqNo, keys[i], vals[i], i, |VersionsOf(past, keys[i])|, now))
  }

  ghost predicate IsBatch(past: Past, docs: seq<Document>) {
    forall i :: 0 <= i < |docs| ==> docs[i].version == |VersionsOf(past, docs[i].key)|
  }

  /** Some of the first `n` documents is for `k`. */
  ghost predicate Sets(docs: seq<Document>, n: nat, k: Bytes) {
    exists i :: 0 <= i < n && i < |docs| && docs[i].key == k
  }

  /** The last of the first `n` documents for `k`. */
  ghost function LastFor(docs: seq<Document>, n: nat, k: Bytes): Document
    requires n <= |docs| && Sets(docs, n, k)
  {
    if docs[n - 1].key == k then docs[n - 1] else LastFor(docs, n - 1, k)
  }

  ghost function KeysOf(docs: seq<Document>): set<Bytes> { set i | 0 <= i < |docs| :: docs[i].key }

  ghost function AfterBatch(past: Past, docs: seq<Document>): Past {
    map k | k in past.Keys + KeysOf(docs) ::
      if Sets(docs, |docs|, k) then VersionsOf(past, k) + [LastFor(docs, |docs|, k)] else past[k]
  }

  /** The current document of a key is the last of its versions. */
  ghost predicate KeyStored(db: Tables, past: Past, k: Bytes) {
    var vs := VersionsOf(past, k);
    && (k in db.current <==> vs != [])
    && (vs != [] ==> db.current[k] == vs[|vs| - 1])
    && (forall i :: 0 <= i < |vs| ==> IsVersion(db.versions, vs, k, i))
  }

  ghost predicate IsVersion(versions: map<VersionKey, Document>, vs: seq<Document>, k: Bytes, i: nat) {
    i < |vs| && VersionKey(k, i) in versions && versions[VersionKey(k, i)] == vs[i] && vs[i].version == i
  }

  ghost predicate Stored(db: Tables, past: Past) { forall k :: KeyStored(db, past, k) }

  ghost function PutCurrent(m: map<Bytes, Document>, docs: seq<Document>, n: nat): map<Bytes, Document>
    requires n <= |docs|
  {
    if n == 0 then m else PutCurrent(m, docs, n - 1)[docs[n - 1].key := docs[n - 1]]
  }

  ghost function PutVersions(m: map<VersionKey, Document>, docs: seq<Document>, n: nat): map<VersionKey, Document>
    requires n <= |docs|
  {
    if n == 0 then m
    else PutVersions(m, docs, n - 1)[VersionKey(docs[n - 1].key, docs[n - 1].version) := docs[n - 1]]
  }

  lemma {:induction false} CurrentHolds(m: map<Bytes, Document>, docs: seq<Document>, n: nat, k: Bytes)
    requires n <= |docs|
    ensures var r := PutCurrent(m, docs, n);
            && (k in r <==> k in m || Sets(docs, n, k))
            && (k in r ==> r[k] == if Sets(docs, n, k) then LastFor(docs, n, k) else m[k])
  {
    if n > 0 {
      CurrentHolds(m, docs, n - 1, k);
      SetsMore(docs, n, k);
    }
  }

  lemma SetsMore(docs: seq<Document>, n: nat, k: Bytes)
    requires 0 < n <= |docs|
    ensures Sets(docs, n, k) <==> Sets(docs, n - 1, k) || docs[n - 1].key == k
  {
  }

  lemma {:induction false} VersionsHold(m: map<VersionKey, Document>, past: Past, docs: seq<Document>, n: nat,
                                        x: VersionKey)
    requires IsBatch(past, docs) && n <= |docs|
    ensures var r, here := PutVersions(m, docs, n), Sets(docs, n, x.key) && x.number == |VersionsOf(past, x.key)|;
            && (x in r <==> x in m || here)
            && (x in r ==> r[x] == if here then LastFor(docs, n, x.key) else m[x])
  {
    if n > 0 {
      VersionsHold(m, past, docs, n - 1, x);
      SetsMore(docs, n, x.key);
    }
  }

  lemma {:induction false} LastForIs(docs: seq<Document>, n: nat, k: Bytes) returns (i: nat)
    requires n <= |docs| && Sets(docs, n, k)
    ensures i < n && LastFor(docs, n, k) == docs[i] && docs[i].key == k
    ensures forall j :: i < j < n ==> docs[j].key != k
  {
    if docs[n - 1].key == k { i := n - 1; } else { i := LastForIs(docs, n - 1, k); }
  }

  lemma AfterBatchAt(past: Past, docs: seq<Document>, k: Bytes)
    ensures VersionsOf(AfterBatch(past, docs), k)
         == VersionsOf(past, k) + if Sets(docs, |docs|, k) then [LastFor(docs, |docs|, k)] else []
  {
    if Sets(docs, |docs|, k) {
      var i :| 0 <= i < |docs| && docs[i].key == k;
      assert k in KeysOf(docs);
    }
  }

  /** A batch adds one version of each of its keys. */
  lemma BatchStored(db: Tables, past: Past, docs: seq<Document>)
    requires Stored(db, past) && IsBatch(past, docs)
    ensures Stored(Tables(PutCurrent(db.current, docs, |docs|), PutVersions(db.versions, docs, |docs|)),
                   AfterBatch(past, docs))
  {
    var db' := Tables(PutCurrent(db.current, docs, |docs|), PutVersions(db.versions, docs, |docs|));
    forall k ensures KeyStored(db', AfterBatch(past, docs), k) { BatchStoredAt(db, past, docs, k); }
  }

  lemma BatchStoredAt(db: Tables, past: Past, docs: seq<Document>, k: Bytes)
    requires KeyStored(db, past, k) && IsBatch(past, docs)
    ensures KeyStored(Tables(PutCurrent(db.current, docs, |docs|), PutVersions(db.versions, docs, |docs|)),
                      AfterBatch(past, docs), k)
  {
    var vs' := VersionsOf(AfterBatch(past, docs), k);
    var versions := PutVersions(db.versions, docs, |docs|);
    CurrentStoredAt(db, past, docs, k);
    forall i | 0 <= i < |vs'| ensures IsVersion(versions, vs', k, i) { VersionStoredAt(db, past, docs, k, i); }
  }

  lemma CurrentStoredAt(db: Tables, past: Past, docs: seq<Document>, k: Bytes)
    requires KeyStored(db, past, k)
    ensures var vs, current := VersionsOf(AfterBatch(past, docs), k), PutCurrent(db.current, docs, |docs|);
            (k in current <==> vs != []) && (vs != [] ==> current[k] == vs[|vs| - 1])
  {
    CurrentHolds(db.current, docs, |docs|, k);
    AfterBatchAt(past, docs, k);
  }

  lemma VersionStoredAt(db: Tables, past: Past, docs: seq<Document>, k: Bytes, i: nat)
    requires KeyStored(db, past, k) && IsBatch(past, docs) && i < |VersionsOf(AfterBatch(past, docs), k)|
    ensures IsVersion(PutVersions(db.versions, docs, |docs|), VersionsOf(AfterBatch(past, docs), k), k, i)
  {
    AfterBatchAt(past, docs, k);
    VersionsHold(db.versions, past, docs, |docs|, VersionKey(k, i));
    if i < |VersionsOf(past, k)| {
      assert IsVersion(db.versions, VersionsOf(past, k), k, i);
    } else {
      var j := LastForIs(docs, |docs|, k);
    }
  }

  // ---- The tables and the ledger together.

  /** The document is in the block and at the place that it names. */
  ghost predicate InLedger(docs: seq<seq<Document>>, d: Document) {
    d.seqNo < |docs| && d.docSeq < |docs[d.seqNo]| && docs[d.seqNo][d.docSeq] == d
  }

  ghost predicate AllInLedger(docs: seq<seq<Document>>, past: Past) {
    forall k, i :: k in past && 0 <= i < |past[k]| ==> InLedger(docs, past[k][i])
  }

  lemma BatchInLedger(docs: seq<seq<Document>>, past: Past, block: seq<Document>)
    requires AllInLedger(docs, past)
    requires forall i :: 0 <= i < |block| ==> block[i].seqNo == |docs| && block[i].docSeq == i
    ensures AllInLedger(docs + [block], AfterBatch(past, block))
  {
    var past' := AfterBatch(past, block);
    forall k, i | k in past' && 0 <= i < |past'[k]| ensures InLedger(docs + [block], past'[k][i]) {
      AfterBatchAt(past, block, k);
      if i < |VersionsOf(past, k)| {
        assert InLedger(docs, past[k][i]);
      } else {
        var j := LastForIs(block, |block|, k);
      }
    }
  }

  class QLDB {
    const ledger: Ledger
    var db: Tables
    ghost var past: Past

    ghost predicate Valid()
      reads this, ledger
    {
      ledger.Valid() && Stored(db, past) && AllInLedger(ledger.docs, past)
    }

    constructor (H: HashFn, HB: Bytes -> Digest, name: Bytes, genesis: Digest)
      ensures Valid() && fresh(ledger) && past == map[] && ledger.docs == []
    {
      ledger := new Ledger(H, HB, name, genesis);
      db, past := Tables(map[], map[]), map[];
    }

    /** `Set`: one more block, and one more version of each of its keys. */
    method Set(keys: seq<Bytes>, vals: seq<Bytes>, now: nat, stmtHash: Digest, addrHash: Digest) returns (ok: bool)
      requires Valid()
      requires |keys| == |vals| ==>
                 forall d :: d in NewDocs(ledger.name, |ledger.docs|, past, keys, vals, now) ==> Storable(d)
      modifies this, ledger
      ensures Valid() && ok == (|keys| == |vals|)
      ensures !ok || |keys| == 0 ==> past == old(past) && ledger.docs == old(ledger.docs)
      ensures ok && |keys| > 0 ==>
                var block := NewDocs(ledger.name, |old(ledger.docs)|, old(past), keys, vals, now);
                && past == AfterBatch(old(past), block) && ledger.docs == old(ledger.docs) + [block]
                && ledger.trees == old(ledger.trees) +
                     [DocHashes(ledger.HB, block) + [PrevHash(ledger.H, ledger.genesis, old(ledger.trees)), stmtHash,
                                                     addrHash]]
    {
      if |keys| != |vals| {
        return false;
      } else if |keys| == 0 {
        return true;
      }
      ghost var block := NewDocs(ledger.name, |ledger.docs|, past, keys, vals, now);
      var versions := NextVersions(db, keys, past);
      BatchIsStorable(ledger.name, |ledger.docs|, past, keys, vals, now, versions);
      var seqNo := ledger.NextSeqNo();
      ghost var was := ledger.docs;
      ok := ledger.Set(keys, vals, versions, now, stmtHash, addrHash);
      BlockIs(was, ledger.docs, ledger.name, past, keys, vals, now, versions);
      db := PutDocs(db, ledger.name, seqNo, keys, vals, versions, now, block);
      BatchStored(old(db), past, block);
      BatchInLedger(was, past, block);
      past := AfterBatch(past, block);
    }

    /** `GetHistory`: the current document of a key that has one, then up to `n` earlier versions, newest first. */
    method GetHistory(key: Bytes, n: nat) returns (docs: seq<Document>)
      requires Valid() && VersionsOf(past, key) != []
      ensures NewestFirst(docs, VersionsOf(past, key), n)
    {
      docs := History(db, key, n, past);
    }

    /** The history of a key with a proof for each version: after any run of `Set`s every version is a document of
        the ledger, and its two-level proof is accepted against the current digest. */
    method GetNVersions(key: Bytes, n: nat) returns (docs: seq<Document>, results: seq<ProofResult>)
      requires Valid() && VersionsOf(past, key) != []
      ensures NewestFirst(docs, VersionsOf(past, key), n)
      ensures |results| == |docs| && AllProofs(ledger.H, ledger.HB, results, docs, ledger.digest)
    {
      docs := GetHistory(key, n);
      HistoryInLedger(ledger.docs, past, key, docs, n);
      results := [];
      for i := 0 to |docs|
        invariant |results| == i && AllProofs(ledger.H, ledger.HB, results, docs, ledger.digest)
      {
        var result := ProveDocument(docs[i]);
        MoreProofs(ledger.H, ledger.HB, results, result, docs, ledger.digest);
        results := results + [result];
      }
    }

    method ProveDocument(d: Document) returns (r: ProofResult)
      requires Valid() && InLedger(ledger.docs, d)
      ensures IsProofOf(ledger.H, ledger.HB, r, d, ledger.digest)
    {
      var tip := ledger.LastSeqNo();
      var result := ledger.GetProof(tip, d.seqNo, d.docSeq);
      r := result.value;
    }
  }

  /** The last of the versions and up to `n` earlier ones, newest first. */
  ghost predicate NewestFirst(docs: seq<Document>, vs: seq<Document>, n: nat) {
    && |docs| == (if n < |vs| then n + 1 else |vs|)
    && forall j :: 0 <= j < |docs| ==> docs[j] == vs[|vs| - 1 - j]
  }

  /** The loop of `GetHistory`. */
  method History(db: Tables, key: Bytes, n: nat, ghost past: Past) returns (docs: seq<Document>)
    requires Stored(db, past) && VersionsOf(past, key) != []
    ensures NewestFirst(docs, VersionsOf(past, key), n)
  {
    ghost var vs := VersionsOf(past, key);
    assert KeyStored(db, past, key);
    CurrentVersion(db, past, key);
    var version := db.current[key].version;
    docs := [db.current[key]];
    var i := version;
    while i > 0 && version - i < n
      invariant 0 <= i <= version == |vs| - 1 && version - i <= n && |docs| == version - i + 1
      invariant forall j :: 0 <= j < |docs| ==> docs[j] == vs[|vs| - 1 - j]
    {
      assert IsVersion(db.versions, vs, key, i - 1);
      docs := docs + [db.versions[VersionKey(key, i - 1)]];
      i := i - 1;
    }
  }

  /** The document with a proof that is accepted against the digest. */
  ghost predicate IsProofOf(H: HashFn, HB: Bytes -> Digest, r: ProofResult, d: Document, digest: Option<Digest>) {
    && r.doc == d && |r.proof| == |r.pos| && digest.Some?
    && Climb(H, VerifyStep(), DocHash(HB, d), r.proof, r.pos, |r.proof|) == digest.value
  }

  ghost predicate AllProofs(H: HashFn, HB: Bytes -> Digest, results: seq<ProofResult>, docs: seq<Document>,
                            digest: Option<Digest>)
  {
    |results| <= |docs| && forall j :: 0 <= j < |results| ==> IsProofOf(H, HB, results[j], docs[j], digest)
  }

  lemma MoreProofs(H: HashFn, HB: Bytes -> Digest, results: seq<ProofResult>, r: ProofResult, docs: seq<Document>,
                   digest: Option<Digest>)
    requires AllProofs(H, HB, results, docs, digest) && |results| < |docs|
    requires IsProofOf(H, HB, r, docs[|results|], digest)
    ensures AllProofs(H, HB, results + [r], docs, digest)
  {
  }

  lemma HistoryInLedger(all: seq<seq<Document>>, past: Past, key: Bytes, docs: seq<Document>, n: nat)
    requires AllInLedger(all, past) && NewestFirst(docs, VersionsOf(past, key), n)
    ensures forall j :: 0 <= j < |docs| ==> InLedger(all, docs[j])
  {
    forall j | 0 <= j < |docs| ensures InLedger(all, docs[j]) {
      assert InLedger(all, past[key][|past[key]| - 1 - j]);
    }
  }

  lemma BatchIsStorable(name: Bytes, seqNo: nat, past: Past, keys: seq<Bytes>, vals: seq<Bytes>, now: nat,
                        versions: seq<nat>)
    requires |keys| == |vals| == |versions|
    requires forall i :: 0 <= i < |keys| ==> versions[i] == |VersionsOf(past, keys[i])|
    requires forall d :: d in NewDocs(name, seqNo, past, keys, vals, now) ==> Storable(d)
    ensures forall i :: 0 <= i < |keys| ==> Storable(Document(name, seqNo, keys[i], vals[i], i, versions[i], now))
    ensures IsBatch(past, NewDocs(name, seqNo, past, keys, vals, now))
  {
    var docs := NewDocs(name, seqNo, past, keys, vals, now);
    forall i | 0 <= i < |keys| ensures Storable(Document(name, seqNo, keys[i], vals[i], i, versions[i], now)) {
      assert docs[i] in docs;
    }
  }

  lemma BlockIs(was: seq<seq<Document>>, docs: seq<seq<Document>>, name: Bytes, past: Past, keys: seq<Bytes>,
                vals: seq<Bytes>, now: nat, versions: seq<nat>)
    requires |keys| == |vals| == |versions|
    requires forall i :: 0 <= i < |keys| ==> versions[i] == |VersionsOf(past, keys[i])|
    requires |docs| == |was| + 1 && docs[..|was|] == was && |docs[|was|]| == |keys|
    requires forall i :: 0 <= i < |keys| ==>
               docs[|was|][i] == Document(name, |was|, keys[i], vals[i], i, versions[i], now)
    ensures docs == was + [NewDocs(name, |was|, past, keys, vals, now)]
  {
    assert docs[|was|] == NewDocs(name, |was|, past, keys, vals, now);
    assert docs == docs[..|was|] + [docs[|was|]];
  }

  /** The version of each entry: one more than that of the key's current document. */
  method NextVersions(db: Tables, keys: seq<Bytes>, ghost past: Past) returns (versions: seq<nat>)
    requires Stored(db, past)
    ensures |versions| == |keys| && forall i :: 0 <= i < |keys| ==> versions[i] == |VersionsOf(past, keys[i])|
  {
    versions := [];
    for i := 0 to |keys|
      invariant |versions| == i && forall j :: 0 <= j < i ==> versions[j] == |VersionsOf(past, keys[j])|
    {
      CurrentVersion(db, past, keys[i]);
      var next := if keys[i] in db.current then db.current[keys[i]].version + 1 else 0;
      versions := versions + [next];
    }
  }

  lemma CurrentVersion(db: Tables, past: Past, k: Bytes)
    requires Stored(db, past)
    ensures k in db.current <==> VersionsOf(past, k) != []
    ensures k in db.current ==> db.current[k].version + 1 == |VersionsOf(past, k)|
  {
    assert KeyStored(db, past, k);
    var vs := VersionsOf(past, k);
    if vs != [] { assert IsVersion(db.versions, vs, k, |vs| - 1); }
  }

  /** The batch `Set`s of the two trees. */
  method PutDocs(db: Tables, name: Bytes, seqNo: nat, keys: seq<Bytes>, vals: seq<Bytes>, versions: seq<nat>, now: nat,
                 ghost block: seq<Document>) returns (db': Tables)
    requires |keys| == |vals| == |versions| == |block|
    requires forall i :: 0 <= i < |keys| ==> block[i] == Document(name, seqNo, keys[i], vals[i], i, versions[i], now)
    ensures db' == Tables(PutCurrent(db.current, block, |block|), PutVersions(db.versions, block, |block|))
  {
    var current, all := db.current, db.versions;
    for i := 0 to |keys|
      invariant current == PutCurrent(db.current, block, i)
    {
      current := current[keys[i] := Document(name, seqNo, keys[i], vals[i], i, versions[i], now)];
    }
    for i := 0 to |keys|
      invariant all == PutVersions(db.versions, block, i)
    {
      var d := Document(name, seqNo, keys[i], vals[i], i, versions[i], now);
      all := all[VersionKey(keys[i], versions[i]) := d];
    }
    db' := Tables(current, all);
  }
}
