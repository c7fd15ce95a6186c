/** QLDB's two-level Merkle structure (ledger/qldb/qldb.cc): one tree per block over its documents, and
    an incremental tree over the block hashes whose root is the ledger digest. Inner nodes are stored as
    the bytes that were hashed, and the ledger tree overwrites its last path at every block. */
module QldbDigest {
  import opened Options
  import opened Hashing
  import opened Merkle
  import opened Codec
  import opened Documents

  /** Which tree a record belongs to: `proof_<name>|<block>|..` or `proof_<name>|..`. */
  datatype Tree = OfBlock(block: nat) | OfLedger

  datatype Key = Key(tree: Tree, level: nat, index: nat)

  type Store = map<Key, Block>

  ghost predicate NodeStored(db: Store, tree: Tree, H: HashFn, leaves: seq<Digest>, j: nat, i: nat) {
    && j > 0 && i < Width(|leaves|, j) && 2 * i < Width(|leaves|, j - 1)
    && Key(tree, j, i) in db && db[Key(tree, j, i)] == Input(Level(H, leaves, j - 1), i)
  }

  ghost predicate RowStored(db: Store, tree: Tree, H: HashFn, leaves: seq<Digest>, j: nat, hi: nat) {
    forall i :: 0 <= i < hi ==> NodeStored(db, tree, H, leaves, j, i)
  }

  /** Every inner node of the tree over `leaves`, up to height `top`, is stored. */
  ghost predicate RowsStored(db: Store, tree: Tree, H: HashFn, leaves: seq<Digest>, top: nat) {
    forall j :: 0 < j <= top ==> RowStored(db, tree, H, leaves, j, Width(|leaves|, j))
  }

  ghost predicate TreeStored(db: Store, tree: Tree, H: HashFn, leaves: seq<Digest>) {
    leaves != [] && RowsStored(db, tree, H, leaves, Height(|leaves|))
  }

  /** Only records of `tree` at height `top` or above may differ. */
  ghost predicate SameBelow(db: Store, db': Store, tree: Tree, top: nat) {
    forall k :: k in db && (k.tree != tree || k.level < top) ==> k in db' && db'[k] == db[k]
  }

  lemma RowsStayStored(db: Store, db': Store, other: Tree, tree: Tree, H: HashFn, leaves: seq<Digest>, top: nat, h: nat)
    requires RowsStored(db, tree, H, leaves, h) && SameBelow(db, db', other, top) && (other != tree || h < top)
    ensures RowsStored(db', tree, H, leaves, h)
  {
    forall j | 0 < j <= h
      ensures RowStored(db', tree, H, leaves, j, Width(|leaves|, j))
    {
      assert RowStored(db, tree, H, leaves, j, Width(|leaves|, j));
      forall i | 0 <= i < Width(|leaves|, j)
        ensures NodeStored(db', tree, H, leaves, j, i)
      {
        assert NodeStored(db, tree, H, leaves, j, i);
      }
    }
  }

  /** An inner node before the last one is whole, and stays the same when a leaf is appended. */
  lemma InputIsFinal(H: HashFn, leaves: seq<Digest>, leaf: Digest, j: nat, i: nat)
    requires i < Whole(|leaves|, j + 1)
    ensures 2 * i + 1 < Width(|leaves|, j) <= Width(|leaves + [leaf]|, j)
    ensures Input(Level(H, leaves, j), i) == Input(Level(H, leaves + [leaf], j), i)
  {
    WholeNodesAreFinal(H, leaves, [leaf], j, 2 * i);
    WholeNodesAreFinal(H, leaves, [leaf], j, 2 * i + 1);
    WidthOfSuccessor(|leaves|, j);
    WidthWhole(|leaves|, j);
  }

  /** The last row entry changes, the others are those of the tree before. */
  lemma RowAfterAppend(was: Store, db: Store, H: HashFn, leaves: seq<Digest>, leaf: Digest, j: nat)
    requires j > 0 && (leaves != [] ==> TreeStored(was, OfLedger, H, leaves))
    requires forall k :: k in was && k != Key(OfLedger, j, Whole(|leaves|, j)) && k.level == j ==>
          k in db && db[k] == was[k]
    requires NodeStored(db, OfLedger, H, leaves + [leaf], j, Whole(|leaves|, j))
    ensures RowStored(db, OfLedger, H, leaves + [leaf], j, Width(|leaves + [leaf]|, j))
  {
    WidthOfSuccessor(|leaves|, j);
    forall i | 0 <= i < Whole(|leaves|, j)
      ensures NodeStored(db, OfLedger, H, leaves + [leaf], j, i)
    {
      WholeIsStored(was, H, leaves, j, i);
      InputIsFinal(H, leaves, leaf, j - 1, i);
    }
  }

  lemma WholeIsStored(db: Store, H: HashFn, leaves: seq<Digest>, j: nat, i: nat)
    requires j > 0 && (leaves != [] ==> TreeStored(db, OfLedger, H, leaves)) && i < Whole(|leaves|, j)
    ensures NodeStored(db, OfLedger, H, leaves, j, i)
  {
    WholeBelowHeight(|leaves|, j);
    WholeOfZero(j);
    assert RowStored(db, OfLedger, H, leaves, j, Width(|leaves|, j));
    WidthWhole(|leaves|, j);
  }

  /** QLDB's verifier step: an empty entry leaves the accumulator alone on either side. */
  function VerifyStep(): StepFn {
    (acc: Digest, e: Option<Digest>, side: nat) =>
      if e.None? then One(acc) else if side == 0 then Two(e.value, acc) else Two(acc, e.value)
  }

  lemma VerifyStepIsStep()
    ensures IsStep(VerifyStep())
  {
    forall acc: Digest, e: Option<Digest>, side: nat
      ensures StepAt(VerifyStep(), acc, e, side)
    {
    }
  }

  /** `QLProofResult::Verify` from the document hash on. */
  method Verify(H: HashFn, docHash: Digest, proof: seq<Option<Digest>>, pos: seq<nat>, digest: Digest)
    returns (accepted: bool)
    requires |proof| <= |pos|
    ensures accepted <==> Climb(H, VerifyStep(), docHash, proof, pos, |proof|) == digest
  {
    var acc := docHash;
    for i := 0 to |proof|
      invariant acc == Climb(H, VerifyStep(), docHash, proof, pos, i)
    {
      if proof[i].None? {
        acc := H(One(acc));
      } else if pos[i] == 0 {
        acc := H(Two(proof[i].value, acc));
      } else {
        acc := H(Two(acc, proof[i].value));
      }
    }
    accepted := acc == digest;
  }

  /** The 20 bytes at offset 0 or 20 of a stored node. */
  function Half(node: Block, side: nat): Digest
    requires side == 0 || node.Two?
  {
    match node
    case One(only) => only
    case Two(left, right) => if side == 0 then left else right
  }

  /** A row that is complete up to `hi`, after its next node is put. */
  lemma PutNode(db: Store, tree: Tree, H: HashFn, leaves: seq<Digest>, j: nat, hi: nat, node: Block)
    requires j > 0 && hi < Width(|leaves|, j) && RowsStored(db, tree, H, leaves, j - 1)
               && RowStored(db, tree, H, leaves, j, hi)
    requires 2 * hi < Width(|leaves|, j - 1) && node == Input(Level(H, leaves, j - 1), hi)
    ensures var db' := db[Key(tree, j, hi) := node];
            RowsStored(db', tree, H, leaves, j - 1) && RowStored(db', tree, H, leaves, j, hi + 1)
  {
    var db' := db[Key(tree, j, hi) := node];
    RowsStayStored(db, db', tree, tree, H, leaves, j, j - 1);
    forall i | 0 <= i < hi + 1
      ensures NodeStored(db', tree, H, leaves, j, i)
    {
      assert i < hi ==> NodeStored(db, tree, H, leaves, j, i);
    }
  }

  /** `calculateBlockHash`: the from-scratch root of `leaves`, with every inner node of the tree stored. */
  method CalculateBlockHash(db: Store, H: HashFn, leaves: seq<Digest>, seqno: nat) returns (db': Store, root: Digest)
    requires leaves != []
    ensures root == Root(H, leaves) && TreeStored(db', OfBlock(seqno), H, leaves)
    ensures SameBelow(db, db', OfBlock(seqno), 0)
  {
    db' := db;
    var level, last, current := 0, |leaves| - 1, leaves;
    while last > 0
      invariant last >= 0 && current == Level(H, leaves, level) && last + 1 == Width(|leaves|, level)
      invariant Height(|leaves|) == level + Height(Width(|leaves|, level))
      invariant RowsStored(db', OfBlock(seqno), H, leaves, level) && SameBelow(db, db', OfBlock(seqno), 0)
      decreases last
    {
      level := level + 1;
      db', current := BuildRow(db', H, current, seqno, level, last, leaves);
      HeightOfWidth(|leaves|, level);
      last := last / 2;
    }
    root := current[0];
    RootIsTop(H, leaves);
  }

  /** The inner loop of `calculateBlockHash`: the parents are appended, then the children erased. */
  method BuildRow(db: Store, H: HashFn, row: seq<Digest>, seqno: nat, level: nat, last: nat, ghost leaves: seq<Digest>)
    returns (db': Store, current: seq<Digest>)
    requires level > 0 && row == Level(H, leaves, level - 1) && |row| == last + 1
    requires RowsStored(db, OfBlock(seqno), H, leaves, level - 1)
    ensures current == Level(H, leaves, level)
    ensures RowsStored(db', OfBlock(seqno), H, leaves, level)
    ensures SameBelow(db, db', OfBlock(seqno), 0)
  {
    db', current := db, row;
    var prLast, prLastIdx := last / 2, last % 2;
    ghost var up := Up(H, row);
    for i := 0 to prLast + 1
      invariant current == row + up[..i]
      invariant RowsStored(db', OfBlock(seqno), H, leaves, level - 1)
      invariant RowStored(db', OfBlock(seqno), H, leaves, level, i)
      invariant SameBelow(db, db', OfBlock(seqno), 0)
    {
      var node :=
        if i == prLast && prLastIdx == 0 then One(current[i * 2]) else Two(current[i * 2], current[i * 2 + 1]);
      assert node == Input(row, i) && up[i] == H(node);
      PutNode(db', OfBlock(seqno), H, leaves, level, i, node);
      db' := db'[Key(OfBlock(seqno), level, i) := node];
      current := current + [H(node)];
    }
    current := current[last + 1..];
  }

  /** The state of `calculateDigest` at height `level`, after appending `leaf` as block `|leaves|`. */
  ghost predicate DigestUpTo(was: Store, db: Store, H: HashFn, leaves: seq<Digest>, leaf: Digest, level: nat, last: nat,
                             curr: Digest)
  {
    && last == Whole(|leaves|, level) < Width(|leaves| + 1, level)
    && curr == Level(H, leaves + [leaf], level)[last]
    && RowsStored(db, OfLedger, H, leaves + [leaf], level)
    && (forall k :: k in was && (k.tree != OfLedger || k.level > level) ==> k in db && db[k] == was[k])
    && Height(|leaves| + 1) == level + Height(Width(|leaves| + 1, level))
  }

  lemma DigestStep(was: Store, db: Store, H: HashFn, leaves: seq<Digest>, leaf: Digest, level: nat, last: nat,
                   curr: Digest)
    requires leaves != [] ==> TreeStored(was, OfLedger, H, leaves)
    requires DigestUpTo(was, db, H, leaves, leaf, level, last, curr) && last > 0
    ensures 2 * (last / 2) < Width(|leaves| + 1, level)
    ensures var node := Input(Level(H, leaves + [leaf], level), last / 2);
            DigestUpTo(was, db[Key(OfLedger, level + 1, last / 2) := node], H, leaves, leaf, level + 1, last / 2,
                H(node))
  {
    var all := leaves + [leaf];
    var node := Input(Level(H, all, level), last / 2);
    var db' := db[Key(OfLedger, level + 1, last / 2) := node];
    WidthOfSuccessor(|leaves|, level);
    WidthOfSuccessor(|leaves|, level + 1);
    LevelAt(H, all, level, last / 2);
    HeightOfWidth(|all|, level + 1);
    RowsStayStored(db, db', OfLedger, OfLedger, H, all, level + 1, level);
    assert NodeStored(db', OfLedger, H, all, level + 1, last / 2);
    RowAfterAppend(was, db', H, leaves, leaf, level + 1);
  }

  /** The left neighbour that `calculateDigest` rehashes is stored whole. */
  lemma LeftNeighbour(was: Store, db: Store, H: HashFn, leaves: seq<Digest>, leaf: Digest, level: nat, last: nat,
                      curr: Digest)
    requires DigestUpTo(was, db, H, leaves, leaf, level, last, curr) && last % 2 == 1 && level > 0
    ensures Key(OfLedger, level, last - 1) in db && db[Key(OfLedger, level, last - 1)].Two?
    ensures H(db[Key(OfLedger, level, last - 1)]) == Level(H, leaves + [leaf], level)[last - 1]
  {
    var all := leaves + [leaf];
    WidthOfSuccessor(|leaves|, level);
    assert RowStored(db, OfLedger, H, all, level, Width(|all|, level));
    assert NodeStored(db, OfLedger, H, all, level, last - 1);
    LevelAt(H, all, level - 1, last - 1);
    InputIsFinal(H, leaves, leaf, level - 1, last - 1);
  }

  /** `calculateDigest`: the stored digest becomes the Merkle root of all block hashes. */
  method CalculateDigest(db: Store, H: HashFn, blockHash: Digest, prevBlockHash: Digest, seqno: nat,
                         ghost leaves: seq<Digest>)
    returns (db': Store, digest: Digest)
    requires seqno == |leaves|
    requires leaves != [] ==> TreeStored(db, OfLedger, H, leaves) && prevBlockHash == leaves[|leaves| - 1]
    ensures digest == Root(H, leaves + [blockHash]) && TreeStored(db', OfLedger, H, leaves + [blockHash])
    ensures SameBelow(db, db', OfLedger, 0)
  {
    db' := db;
    var level, lastSeqno, curr := 0, seqno, blockHash;
    while lastSeqno > 0
      invariant DigestUpTo(db, db', H, leaves, blockHash, level, lastSeqno, curr)
      decreases lastSeqno
    {
      db', curr := DigestLevel(db', H, level, lastSeqno, curr, prevBlockHash, db, leaves, blockHash);
      level, lastSeqno := level + 1, lastSeqno / 2;
    }
    digest := curr;
    DigestDone(db, db', H, leaves, blockHash, level, curr);
  }

  /** Above the last block's ancestor of index 0 there is nothing more. */
  lemma DigestDone(was: Store, db: Store, H: HashFn, leaves: seq<Digest>, leaf: Digest, level: nat, curr: Digest)
    requires DigestUpTo(was, db, H, leaves, leaf, level, 0, curr)
    ensures curr == Root(H, leaves + [leaf]) && TreeStored(db, OfLedger, H, leaves + [leaf])
    ensures SameBelow(was, db, OfLedger, 0)
  {
    WidthOfSuccessor(|leaves|, level);
    RootIsTop(H, leaves + [leaf]);
  }

  /** One round of the loop of `calculateDigest`, from height `level` to the next. */
  method DigestLevel(db: Store, H: HashFn, level: nat, lastSeqno: nat, curr: Digest, prevBlockHash: Digest,
                     ghost was: Store, ghost leaves: seq<Digest>, ghost blockHash: Digest)
    returns (db': Store, curr': Digest)
    requires leaves != [] ==> TreeStored(was, OfLedger, H, leaves) && prevBlockHash == leaves[|leaves| - 1]
    requires DigestUpTo(was, db, H, leaves, blockHash, level, lastSeqno, curr) && lastSeqno > 0
    ensures DigestUpTo(was, db', H, leaves, blockHash, level + 1, lastSeqno / 2, curr')
  {
    var prevHash := prevBlockHash;
    LastInput(H, leaves, blockHash, level);
    if level > 0 && lastSeqno % 2 == 1 {
      LeftNeighbour(was, db, H, leaves, blockHash, level, lastSeqno, curr);
      prevHash := H(db[Key(OfLedger, level, lastSeqno - 1)]);
    }
    var node := if lastSeqno % 2 == 0 then One(curr) else Two(prevHash, curr);
    assert node == Input(Level(H, leaves + [blockHash], level), lastSeqno / 2);
    DigestStep(was, db, H, leaves, blockHash, level, lastSeqno, curr);
    db' := db[Key(OfLedger, level + 1, lastSeqno / 2) := node];
    curr' := H(node);
  }

  lemma LastInput(H: HashFn, leaves: seq<Digest>, leaf: Digest, j: nat)
    requires Whole(|leaves|, j) > 0
    ensures var last, row := Whole(|leaves|, j), Level(H, leaves + [leaf], j);
            && |row| == last + 1
            && Input(row, last / 2) == if last % 2 == 0 then One(row[last]) else Two(row[last - 1], row[last])
  {
    WidthOfSuccessor(|leaves|, j);
  }

  /** One of the two loops of `getProof`, for the tree over `leaves` whose last index is `last`. */
  method CollectPath(db: Store, tree: Tree, last: nat, index: nat, ghost H: HashFn, ghost leaves: seq<Digest>)
    returns (proof: seq<Option<Digest>>, pos: seq<nat>)
    requires TreeStored(db, tree, H, leaves) && last + 1 == |leaves| && index <= last
    ensures IsPath(H, leaves, index, proof, pos)
  {
    proof, pos := [], [];
    var level, curr, latest := 0, index, last;
    while latest > 0
      invariant curr == Whole(index, level) && latest == Whole(last, level)
      invariant |proof| == level && IsSides(index, level, pos)
      invariant forall j :: 0 <= j < level ==> IsSibling(H, leaves, index, j, proof[j])
      invariant Height(|leaves|) == level + Height(Width(|leaves|, level))
      decreases latest
    {
      LoadedSibling(db, tree, H, leaves, level, index);
      level := level + 1;
      var prSeq, prSeqIdx := curr / 2, 1 - curr % 2;
      pos := pos + [prSeqIdx];
      if curr == latest && latest % 2 == 0 {
        proof := proof + [None];
      } else {
        proof := proof + [Some(Half(db[Key(tree, level, prSeq)], prSeqIdx))];
      }
      curr, latest := prSeq, latest / 2;
    }
    WidthOfSuccessor(last, level);
  }

  lemma LoadedSibling(db: Store, tree: Tree, H: HashFn, leaves: seq<Digest>, j: nat, index: nat)
    requires TreeStored(db, tree, H, leaves) && index < |leaves| && Whole(|leaves| - 1, j) > 0
    requires Height(|leaves|) == j + Height(Width(|leaves|, j))
    ensures var curr, latest := Whole(index, j), Whole(|leaves| - 1, j);
            if curr == latest && latest % 2 == 0 then IsSibling(H, leaves, index, j, None)
            else
              && Key(tree, j + 1, curr / 2) in db && (curr % 2 == 0 ==> db[Key(tree, j + 1, curr / 2)].Two?)
              && IsSibling(H, leaves, index, j, Some(Half(db[Key(tree, j + 1, curr / 2)], 1 - curr % 2)))
    ensures Height(|leaves|) == j + 1 + Height(Width(|leaves|, j + 1))
  {
    var curr := Whole(index, j);
    AncestorInWidth(index, |leaves|, j);
    AncestorInWidth(index, |leaves|, j + 1);
    WidthOfSuccessor(|leaves| - 1, j);
    HeightOfWidth(|leaves|, j + 1);
    assert RowStored(db, tree, H, leaves, j + 1, Width(|leaves|, j + 1));
    assert NodeStored(db, tree, H, leaves, j + 1, curr / 2);
    if !(curr == Whole(|leaves| - 1, j) && curr % 2 == 0) { HalfIsSibling(Level(H, leaves, j), curr); }
  }

  /** The other half of what is hashed to give a node's parent is its sibling. */
  lemma HalfIsSibling(level: seq<Digest>, i: nat)
    requires i < |level| && !(i + 1 == |level| && i % 2 == 0)
    ensures var input := Input(level, i / 2);
            (i % 2 == 0 ==> input.Two?) && Sibling(level, i) == Some(Half(input, 1 - i % 2))
  {
  }

  datatype Tip = Tip(seqno: nat, hash: Digest)

  datatype ProofResult = ProofResult(doc: Document, proof: seq<Option<Digest>>, pos: seq<nat>)

  /** `Document::Encode(..).hash()`: the hash of the document's chunk. */
  function DocHash(HB: Bytes -> Digest, d: Document): Digest { HB(Chunk(DOCUMENT_KIND, Encode(d))) }

  function DocHashes(HB: Bytes -> Digest, docs: seq<Document>): seq<Digest> {
    seq(|docs|, i requires 0 <= i < |docs| => DocHash(HB, docs[i]))
  }

  function BlockHashes(H: HashFn, trees: seq<seq<Digest>>): (hashes: seq<Digest>)
    requires forall b :: 0 <= b < |trees| ==> trees[b] != []
    ensures |hashes| == |trees|
    ensures forall b :: 0 <= b < |trees| ==> hashes[b] == Root(H, trees[b])
  {
    if trees == [] then []
    else BlockHashes(H, trees[..|trees| - 1]) + [Root(H, trees[|trees| - 1])]
  }

  /** The leaves of a block's tree are the hashes of its documents, and three more. */
  ghost predicate OverDocs(HB: Bytes -> Digest, docs: seq<Document>, leaves: seq<Digest>) {
    && |leaves| == |docs| + 3
    && forall i :: 0 <= i < |docs| ==> Storable(docs[i]) && leaves[i] == DocHash(HB, docs[i])
  }

  /** The bytes of a block's documents, and the leaves of its tree. */
  ghost predicate IsBlock(HB: Bytes -> Digest, stored: seq<Bytes>, docs: seq<Document>, leaves: seq<Digest>) {
    && |stored| == |docs| && OverDocs(HB, docs, leaves)
    && forall i :: 0 <= i < |docs| ==> stored[i] == Encode(docs[i])
  }

  /** Block `b` holds `docs`, and its tree is stored in full. */
  ghost predicate BlockStored(db: Store, H: HashFn, HB: Bytes -> Digest, blocks: map<nat, seq<Bytes>>, b: nat,
                              docs: seq<Document>, leaves: seq<Digest>)
  {
    b in blocks && IsBlock(HB, blocks[b], docs, leaves) && TreeStored(db, OfBlock(b), H, leaves)
  }

  /** Behind its documents every block hashes the block before; the first one has `genesis` there. */
  ghost predicate Links(H: HashFn, genesis: Digest, trees: seq<seq<Digest>>) {
    forall b :: 0 <= b < |trees| ==> LinkAt(H, genesis, trees, b)
  }

  ghost predicate LinkAt(H: HashFn, genesis: Digest, trees: seq<seq<Digest>>, b: nat) {
    && b < |trees| && |trees[b]| >= 3 && (b > 0 ==> trees[b - 1] != [])
    && trees[b][|trees[b]| - 3] == if b == 0 then genesis else Root(H, trees[b - 1])
  }

  /** What a new block hashes as the block before. */
  function PrevHash(H: HashFn, genesis: Digest, trees: seq<seq<Digest>>): Digest {
    if trees == [] || trees[|trees| - 1] == [] then genesis else Root(H, trees[|trees| - 1])
  }

  lemma LinksMore(H: HashFn, genesis: Digest, trees: seq<seq<Digest>>, tree: seq<Digest>)
    requires Links(H, genesis, trees) && |tree| >= 3 && (trees != [] ==> trees[|trees| - 1] != [])
    requires tree[|tree| - 3] == if trees == [] then genesis else Root(H, trees[|trees| - 1])
    ensures Links(H, genesis, trees + [tree])
  {
    var all := trees + [tree];
    forall b | 0 <= b < |all| ensures LinkAt(H, genesis, all, b) {
      if b < |trees| { assert LinkAt(H, genesis, trees, b); }
    }
  }

  /** Some node of the trees of a block between `k` and `n` collides. */
  ghost predicate BlocksCollide(H: HashFn, a: seq<seq<Digest>>, b: seq<seq<Digest>>, k: nat, n: nat) {
    exists m, j, i :: k < m <= n && m < |a| && m < |b| && RowsCollide(H, a[m], b[m], j, i)
  }

  /** A block hash binds the past: two ledgers that have the same block hash at `n`, and block trees of the same
      heights from there back to `k`, have the same block hash at `k`, or two nodes collide. */
  lemma {:induction false} BlockHashBindsPast(H: HashFn, genesis: Digest, a: seq<seq<Digest>>, genesis': Digest,
                                              b: seq<seq<Digest>>, k: nat, n: nat)
    requires Links(H, genesis, a) && Links(H, genesis', b) && k <= n < |a| && n < |b|
    requires forall m :: k < m <= n ==> Height(|a[m]|) == Height(|b[m]|)
    requires a[n] != [] && b[n] != [] && Root(H, a[n]) == Root(H, b[n])
    ensures a[k] != [] && b[k] != [] && (Root(H, a[k]) == Root(H, b[k]) || BlocksCollide(H, a, b, k, n))
  {
    assert LinkAt(H, genesis, a, n) && LinkAt(H, genesis', b, n);
    assert LinkAt(H, genesis, a, k) && LinkAt(H, genesis', b, k);
    if k < n {
      SameRootSameLeaves(H, a[n], b[n]);
      if a[n] == b[n] {
        BlockHashBindsPast(H, genesis, a, genesis', b, k, n - 1);
      }
    }
  }

  ghost predicate BlocksStored(db: Store, H: HashFn, HB: Bytes -> Digest, blocks: map<nat, seq<Bytes>>,
                               docs: seq<seq<Document>>, trees: seq<seq<Digest>>)
  {
    && |docs| == |trees|
    && forall b :: 0 <= b < |trees| ==> trees[b] != [] && BlockStored(db, H, HB, blocks, b, docs[b], trees[b])
  }

  /** The tip record, the ledger tree and the digest record, after the blocks with leaves `trees`. */
  ghost predicate LedgerStored(db: Store, H: HashFn, tip: Option<Tip>, digest: Option<Digest>, trees: seq<seq<Digest>>)
    requires forall b :: 0 <= b < |trees| ==> trees[b] != []
  {
    if trees == [] then tip == None
    else
      && tip == Some(Tip(|trees| - 1, Root(H, trees[|trees| - 1])))
      && TreeStored(db, OfLedger, H, BlockHashes(H, trees))
      && digest == Some(Root(H, BlockHashes(H, trees)))
  }

  /** The hash and the tree of a new block, and the digest with it. */
  method HashBlock(db: Store, H: HashFn, seqno: nat, prevHash: Digest, proof: seq<Digest>,
                   ghost trees: seq<seq<Digest>>)
    returns (db': Store, blockHash: Digest, root: Digest)
    requires proof != [] && seqno == |trees| && (forall b :: 0 <= b < |trees| ==> trees[b] != [])
    requires trees != [] ==> prevHash == Root(H, trees[|trees| - 1])
    requires trees != [] ==> TreeStored(db, OfLedger, H, BlockHashes(H, trees))
    ensures OtherTreesStay(db, db', seqno) && TreeStored(db', OfBlock(seqno), H, proof)
    ensures LedgerStored(db', H, Some(Tip(seqno, blockHash)), Some(root), trees + [proof])
  {
    ghost var hashes := BlockHashes(H, trees);
    var db1;
    db1, blockHash := CalculateBlockHash(db, H, proof, seqno);
    if hashes != [] {
      RowsStayStored(db, db1, OfBlock(seqno), OfLedger, H, hashes, 0, Height(|hashes|));
    }
    db', root := CalculateDigest(db1, H, blockHash, prevHash, seqno, hashes);
    RowsStayStored(db1, db', OfLedger, OfBlock(seqno), H, proof, 0, Height(|proof|));
    BlockHashesAfterAppend(H, trees, proof);
  }

  /** Only the ledger tree and the tree of block `seqno` may differ. */
  ghost predicate OtherTreesStay(db: Store, db': Store, seqno: nat) {
    forall k :: k in db && k.tree != OfLedger && k.tree != OfBlock(seqno) ==> k in db' && db'[k] == db[k]
  }

  lemma OtherTreeStored(db: Store, db': Store, seqno: nat, b: nat, H: HashFn, leaves: seq<Digest>)
    requires TreeStored(db, OfBlock(b), H, leaves) && OtherTreesStay(db, db', seqno) && b != seqno
    ensures TreeStored(db', OfBlock(b), H, leaves)
  {
    forall j | 0 < j <= Height(|leaves|)
      ensures RowStored(db', OfBlock(b), H, leaves, j, Width(|leaves|, j))
    {
      assert RowStored(db, OfBlock(b), H, leaves, j, Width(|leaves|, j));
      forall i | 0 <= i < Width(|leaves|, j)
        ensures NodeStored(db', OfBlock(b), H, leaves, j, i)
      {
        assert NodeStored(db, OfBlock(b), H, leaves, j, i);
      }
    }
  }

  /** Writing the records of the next block and of the ledger tree leaves every earlier block stored. */
  lemma BlocksAfterAppend(db: Store, db': Store, H: HashFn, HB: Bytes -> Digest,
                          blocks: map<nat, seq<Bytes>>, docs: seq<seq<Document>>, trees: seq<seq<Digest>>,
                          stored: seq<Bytes>, doc: seq<Document>, proof: seq<Digest>)
    requires BlocksStored(db, H, HB, blocks, docs, trees) && OtherTreesStay(db, db', |trees|)
    requires proof != [] && BlockStored(db', H, HB, blocks[|trees| := stored], |trees|, doc, proof)
    ensures BlocksStored(db', H, HB, blocks[|trees| := stored], docs + [doc], trees + [proof])
  {
    var n := |trees|;
    forall b | 0 <= b < n
      ensures BlockStored(db', H, HB, blocks[n := stored], b, docs[b], trees[b])
    {
      OtherTreeStored(db, db', n, b, H, trees[b]);
    }
  }

  lemma BlockHashesAfterAppend(H: HashFn, trees: seq<seq<Digest>>, proof: seq<Digest>)
    requires proof != [] && forall b :: 0 <= b < |trees| ==> trees[b] != []
    ensures BlockHashes(H, trees + [proof]) == BlockHashes(H, trees) + [Root(H, proof)]
  {
    assert (trees + [proof])[..|trees|] == trees;
  }

  /** Two-level completeness: the path of a document in its block followed by the path of the block in
      the ledger leads from the document hash to the ledger root. */
  lemma TwoLevelPath(H: HashFn, doc: seq<Digest>, i: nat, p1: seq<Option<Digest>>, s1: seq<nat>, blocks: seq<Digest>,
                     b: nat, p2: seq<Option<Digest>>, s2: seq<nat>)
    requires i < |doc| && b < |blocks| && blocks[b] == Root(H, doc)
    requires IsPath(H, doc, i, p1, s1) && IsPath(H, blocks, b, p2, s2)
    ensures Climb(H, VerifyStep(), doc[i], p1 + p2, s1 + s2, |p1 + p2|) == Root(H, blocks)
  {
    VerifyStepIsStep();
    PathReachesRoot(H, VerifyStep(), doc, i, p1, s1);
    PathReachesRoot(H, VerifyStep(), blocks, b, p2, s2);
    ClimbConcatenation(H, VerifyStep(), doc[i], p1, s1, p2, s2);
  }

  /** A two-level proof of the honest lengths and sides for leaf `i` of block `b` leads from `start` to the
      ledger root. */
  ghost predicate AcceptedFor(H: HashFn, start: Digest, tree: seq<Digest>, i: nat, p1: seq<Option<Digest>>,
                              s1: seq<nat>, blocks: seq<Digest>, b: nat, p2: seq<Option<Digest>>, s2: seq<nat>)
  {
    && i < |tree| && b < |blocks| && blocks[b] == Root(H, tree)
    && |p1| == Height(|tree|) && IsSides(i, |p1|, s1) && |p2| == Height(|blocks|) && IsSides(b, |p2|, s2)
    && Climb(H, VerifyStep(), start, p1 + p2, s1 + s2, |p1 + p2|) == Root(H, blocks)
  }

  /** On the way the proof hashes other bytes than the honest tree of the block, or of the ledger, to one digest. */
  ghost predicate NodesCollide(H: HashFn, start: Digest, tree: seq<Digest>, i: nat, p1: seq<Option<Digest>>,
                               s1: seq<nat>, blocks: seq<Digest>, b: nat, p2: seq<Option<Digest>>, s2: seq<nat>)
    requires i < |tree| && b < |blocks| && |p1| <= |s1|
  {
    || (exists j :: CollidesAt(H, VerifyStep(), tree, i, start, p1, s1, j))
    || (exists j :: CollidesAt(H, VerifyStep(), blocks, b, Climb(H, VerifyStep(), start, p1, s1, |p1|), p2, s2, j))
  }

  /** Two-level binding: a proof of the honest lengths and sides that is accepted against the ledger root
      is for the real leaf, or collides with the honest tree of the block or of the ledger. */
  lemma TwoLevelBinding(H: HashFn, start: Digest, tree: seq<Digest>, i: nat, p1: seq<Option<Digest>>, s1: seq<nat>,
                        blocks: seq<Digest>, b: nat, p2: seq<Option<Digest>>, s2: seq<nat>)
    requires AcceptedFor(H, start, tree, i, p1, s1, blocks, b, p2, s2)
    ensures start == tree[i] || NodesCollide(H, start, tree, i, p1, s1, blocks, b, p2, s2)
  {
    VerifyStepIsStep();
    ClimbConcatenation(H, VerifyStep(), start, p1, s1, p2, s2);
    AcceptedProofBinds(H, VerifyStep(), blocks, b, Climb(H, VerifyStep(), start, p1, s1, |p1|), p2, s2);
    if Climb(H, VerifyStep(), start, p1, s1, |p1|) == Root(H, tree) {
      AcceptedProofBinds(H, VerifyStep(), tree, i, start, p1, s1);
    }
  }

  /** Two documents are stored as different bytes with the same hash. */
  ghost predicate DocsCollide(HB: Bytes -> Digest, d: Document, e: Document) {
    var a, b := Chunk(DOCUMENT_KIND, Encode(d)), Chunk(DOCUMENT_KIND, Encode(e));
    a != b && HB(a) == HB(b)
  }

  lemma SameDocHash(HB: Bytes -> Digest, d: Document, e: Document)
    requires Storable(d) && Storable(e) && DocHash(HB, d) == DocHash(HB, e)
    ensures d == e || DocsCollide(HB, d, e)
  {
    if !DocsCollide(HB, d, e) { EncodingDetermines(d, e); }
  }

  /** Binding of documents: if the proof of a document, of the honest lengths and sides for document `i` of block
      `b`, is accepted against the ledger root, then it is that document, or two document chunks collide, or the
      proof collides with the honest tree of the block or of the ledger. */
  lemma AcceptedDocumentBinds(H: HashFn, HB: Bytes -> Digest, d: Document, start: Digest, honest: Document,
                              tree: seq<Digest>, i: nat, p1: seq<Option<Digest>>, s1: seq<nat>, blocks: seq<Digest>,
                              b: nat, p2: seq<Option<Digest>>, s2: seq<nat>)
    requires AcceptedFor(H, start, tree, i, p1, s1, blocks, b, p2, s2) && Storable(d) && Storable(honest)
    requires start == DocHash(HB, d) && tree[i] == DocHash(HB, honest)
    ensures d == honest || DocsCollide(HB, d, honest) || NodesCollide(H, start, tree, i, p1, s1, blocks, b, p2, s2)
  {
    TwoLevelBinding(H, start, tree, i, p1, s1, blocks, b, p2, s2);
    if start == tree[i] { SameDocHash(HB, d, honest); }
  }

  /** Two documents at one place collide. */
  ghost predicate SomeDocsCollide(HB: Bytes -> Digest, a: seq<seq<Document>>, b: seq<seq<Document>>) {
    exists m, i :: 0 <= m < |a| && m < |b| && 0 <= i < |a[m]| && i < |b[m]| && DocsCollide(HB, a[m][i], b[m][i])
  }

  /** Two nodes of the ledger trees, or of the trees of one block, collide. */
  ghost predicate SomeNodesCollide(H: HashFn, a: seq<seq<Digest>>, b: seq<seq<Digest>>)
    requires forall m :: 0 <= m < |a| ==> a[m] != []
    requires forall m :: 0 <= m < |b| ==> b[m] != []
  {
    || (exists j, i :: RowsCollide(H, BlockHashes(H, a), BlockHashes(H, b), j, i))
    || (exists m, j, i :: 0 <= m < |a| && m < |b| && RowsCollide(H, a[m], b[m], j, i))
  }

  ghost predicate AllOverDocs(HB: Bytes -> Digest, docs: seq<seq<Document>>, trees: seq<seq<Digest>>) {
    |docs| == |trees| && forall m :: 0 <= m < |docs| ==> trees[m] != [] && OverDocs(HB, docs[m], trees[m])
  }

  /** The ledger trees and the trees of each block have the same heights. */
  ghost predicate SameHeights(a: seq<seq<Digest>>, b: seq<seq<Digest>>) {
    && Height(|a|) == Height(|b|)
    && forall m :: 0 <= m < |a| && m < |b| ==> Height(|a[m]|) == Height(|b[m]|)
  }

  /** The digest binds the whole ledger: two ledgers with the same digest whose trees have the same heights have the
      same documents, or two document chunks or two nodes collide. */
  lemma DigestBindsLedger(H: HashFn, HB: Bytes -> Digest, docs: seq<seq<Document>>, trees: seq<seq<Digest>>,
                          docs': seq<seq<Document>>, trees': seq<seq<Digest>>)
    requires AllOverDocs(HB, docs, trees) && AllOverDocs(HB, docs', trees') && SameHeights(trees, trees')
    requires docs != [] && docs' != []
    requires Root(H, BlockHashes(H, trees)) == Root(H, BlockHashes(H, trees'))
    ensures docs == docs' || SomeDocsCollide(HB, docs, docs') || SomeNodesCollide(H, trees, trees')
  {
    SameRootSameLeaves(H, BlockHashes(H, trees), BlockHashes(H, trees'));
    if !SomeNodesCollide(H, trees, trees') && !SomeDocsCollide(HB, docs, docs') {
      forall m | 0 <= m < |docs| ensures docs[m] == docs'[m] {
        assert BlockHashes(H, trees)[m] == BlockHashes(H, trees')[m];
        SameRootSameLeaves(H, trees[m], trees'[m]);
        SameDocs(HB, docs[m], trees[m], docs'[m], trees'[m]);
      }
    }
  }

  lemma SameDocs(HB: Bytes -> Digest, a: seq<Document>, s: seq<Digest>, b: seq<Document>, t: seq<Digest>)
    requires OverDocs(HB, a, s) && OverDocs(HB, b, t) && s == t
    ensures |a| == |b|
    ensures a == b || exists i :: 0 <= i < |a| && DocsCollide(HB, a[i], b[i])
  {
    forall i | 0 <= i < |a| ensures a[i] == b[i] || DocsCollide(HB, a[i], b[i]) { SameDocHash(HB, a[i], b[i]); }
  }

  class Ledger {
    const H: HashFn
    const HB: Bytes -> Digest
    const name: Bytes
    const genesis: Digest  // the hash of "0"
    var db: Store
    var blocks: map<nat, seq<Bytes>>
    var tip: Option<Tip>
    var digest: Option<Digest>
    ghost var docs: seq<seq<Document>>
    ghost var trees: seq<seq<Digest>>  // the leaves of each block's tree

    ghost predicate Valid()
      reads this
    {
      && BlocksStored(db, H, HB, blocks, docs, trees) && LedgerStored(db, H, tip, digest, trees)
      && Links(H, genesis, trees)
    }

    constructor (H: HashFn, HB: Bytes -> Digest, name: Bytes, genesis: Digest)
      ensures Valid() && docs == [] && fresh(this)
    {
      this.H, this.HB, this.name, this.genesis := H, HB, name, genesis;
      db, blocks, tip, digest := map[], map[], None, None;
      docs, trees := [], [];
    }

    /** Appends a block of documents. Afterwards the stored digest is the Merkle root of the hashes of all
        blocks so far (`Valid`). */
    method Set(keys: seq<Bytes>, vals: seq<Bytes>, versions: seq<nat>, now: nat, stmtHash: Digest, addrHash: Digest)
      returns (ok: bool)
      requires Valid() && |versions| == |keys|
      requires |keys| == |vals| ==> forall i :: 0 <= i < |keys| ==>
                 Storable(Document(name, |docs|, keys[i], vals[i], i, versions[i], now))
      modifies this
      ensures Valid() && ok == (|keys| == |vals|)
      ensures |keys| != |vals| || |keys| == 0 ==> docs == old(docs) && trees == old(trees)
      ensures |keys| == |vals| > 0 ==>
                && |docs| == |old(docs)| + 1 && docs[..|old(docs)|] == old(docs) && |docs[|old(docs)|]| == |keys|
                && forall i :: 0 <= i < |keys| ==>
                     docs[|old(docs)|][i] == Document(name, |old(docs)|, keys[i], vals[i], i, versions[i], now)
      ensures |keys| == |vals| > 0 ==>
                var leaves := DocHashes(HB, docs[|docs| - 1]) + [PrevHash(H, genesis, old(trees)), stmtHash, addrHash];
                trees == old(trees) + [leaves]
    {
      if |keys| != |vals| {
        return false;
      } else if |keys| == 0 {
        return true;
      }
      var seqno, prevHash := 0, genesis;
      if tip.Some? {
        seqno, prevHash := tip.value.seqno + 1, tip.value.hash;
      }
      var stored, proof, newDocs := MakeDocuments(seqno, keys, vals, versions, now);
      assert proof == DocHashes(HB, newDocs);
      proof := proof + [prevHash, stmtHash, addrHash];
      AddBlock(seqno, prevHash, stored, proof, newDocs);
      ok := true;
    }

    /** The number of the next block, and of the last one. */
    method NextSeqNo() returns (n: nat)
      requires Valid()
      ensures n == |docs|
    {
      n := if tip.Some? then tip.value.seqno + 1 else 0;
    }

    method LastSeqNo() returns (n: nat)
      requires Valid() && docs != []
      ensures n + 1 == |docs| == |trees|
    {
      n := tip.value.seqno;
    }

    /** The loop of `Set`: encodes and hashes the new documents. */
    method MakeDocuments(seqno: nat, keys: seq<Bytes>, vals: seq<Bytes>, versions: seq<nat>, now: nat)
      returns (stored: seq<Bytes>, proof: seq<Digest>, ghost newDocs: seq<Document>)
      requires |keys| == |vals| == |versions|
      ensures |stored| == |proof| == |newDocs| == |keys|
      ensures forall k :: 0 <= k < |keys| ==>
                && newDocs[k] == Document(name, seqno, keys[k], vals[k], k, versions[k], now)
                && stored[k] == Encode(newDocs[k]) && proof[k] == DocHash(HB, newDocs[k])
    {
      stored, proof, newDocs := [], [], [];
      for i := 0 to |keys|
        invariant |stored| == |proof| == |newDocs| == i
        invariant forall k :: 0 <= k < i ==>
                    && newDocs[k] == Document(name, seqno, keys[k], vals[k], k, versions[k], now)
                    && stored[k] == Encode(newDocs[k]) && proof[k] == DocHash(HB, newDocs[k])
      {
        var document := Document(name, seqno, keys[i], vals[i], i, versions[i], now);
        proof := proof + [DocHash(HB, document)];
        var bytes := WriteDocument(document);
        stored := stored + [bytes];
        newDocs := newDocs + [document];
      }
    }

    /** The second half of `Set`: hashing and storing the block. */
    method AddBlock(seqno: nat, prevHash: Digest, stored: seq<Bytes>, proof: seq<Digest>, ghost newDocs: seq<Document>)
      requires Valid() && seqno == |trees| && prevHash == PrevHash(H, genesis, trees)
      requires IsBlock(HB, stored, newDocs, proof) && proof[|proof| - 3] == prevHash
      modifies this
      ensures Valid() && docs == old(docs) + [newDocs] && trees == old(trees) + [proof]
    {
      LinksMore(H, genesis, trees, proof);
      var db', blockHash, root := HashBlock(db, H, seqno, prevHash, proof, trees);
      BlocksAfterAppend(db, db', H, HB, blocks, docs, trees, stored, newDocs, proof);
      db, digest := db', Some(root);
      blocks := blocks[seqno := stored];
      tip := Some(Tip(seqno, blockHash));
      trees, docs := trees + [proof], docs + [newDocs];
    }

    /** `getProof` at the current tip. The result holds the stored document, and is accepted by `Verify`
        against the current digest. */
    method GetProof(tipSeq: nat, block: nat, docSeq: nat) returns (result: Option<ProofResult>)
      requires Valid() && trees != [] && tipSeq == |trees| - 1
      requires block <= tipSeq ==> docSeq < |docs[block]| || docSeq > |docs[block]| + 2
      ensures result.None? <==> block > tipSeq || docSeq > |docs[block]| + 2
      ensures result.Some? ==>
                var r := result.value;
                && r.doc == docs[block][docSeq]
                && |r.proof| == |r.pos| && digest.Some?
                && Climb(H, VerifyStep(), DocHash(HB, r.doc), r.proof, r.pos, |r.proof|) == digest.value
    {
      if block > tipSeq {
        return None;
      }
      assert BlockStored(db, H, HB, blocks, block, docs[block], trees[block]);
      var docSize := |blocks[block]| + 2;
      if docSeq > docSize {
        return None;
      }
      var doc := Parse(blocks[block][docSeq]);
      RoundTrip(docs[block][docSeq]);
      var p1, s1 := CollectPath(db, OfBlock(block), docSize, docSeq, H, trees[block]);
      var p2, s2 := CollectPath(db, OfLedger, tipSeq, block, H, BlockHashes(H, trees));
      TwoLevelPath(H, trees[block], docSeq, p1, s1, BlockHashes(H, trees), block, p2, s2);
      result := Some(ProofResult(doc, p1 + p2, s1 + s2));
    }
  }
}
