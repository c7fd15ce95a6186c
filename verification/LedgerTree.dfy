/** LedgerDB's batch-incremental Merkle tree (ledger/ledgerdb/merkletree.cc). Nodes are records in a
    key-value store; a node that may still change is stored under its commit number. */
module LedgerTree {
  import opened Options
  import opened Hashing
  import opened Merkle

  /** `mt<level>-<index>`, or `mt<level>-<index>-<commit>` for a node that is not whole yet. */
  datatype Key = Key(level: nat, index: nat, commit: Option<nat>)

  type Store = map<Key, Digest>

  datatype Proof = Proof(digest: Option<Digest>, value: Option<Digest>, proof: seq<Option<Digest>>, pos: seq<nat>)

  function Get(db: Store, k: Key): Option<Digest> {
    if k in db then Some(db[k]) else None
  }

  /** Where commit `c`, made over `n` leaves, finds node `i` of height `j`. */
  function KeyOf(n: nat, c: nat, j: nat, i: nat): Key {
    Key(j, i, if i < Whole(n, j) then None else Some(c))
  }

  function RootKey(n: nat, c: nat): Key {
    KeyOf(n, c, Height(n), 0)
  }

  ghost predicate NodeStored(db: Store, H: HashFn, leaves: seq<Digest>, c: nat, j: nat, i: nat) {
    && i < Width(|leaves|, j)
    && KeyOf(|leaves|, c, j, i) in db
    && db[KeyOf(|leaves|, c, j, i)] == Level(H, leaves, j)[i]
  }

  /** Nodes `lo` to `hi` of height `j` of the tree of commit `c` can be loaded. */
  ghost predicate RowStored(db: Store, H: HashFn, leaves: seq<Digest>, c: nat, j: nat, lo: nat, hi: nat) {
    forall i :: lo <= i < hi ==> NodeStored(db, H, leaves, c, j, i)
  }

  lemma RowStaysStored(db: Store, db': Store, H: HashFn, leaves: seq<Digest>, c: nat, j: nat, lo: nat, hi: nat)
    requires RowStored(db, H, leaves, c, j, lo, hi) && Extends(db, db')
    ensures RowStored(db', H, leaves, c, j, lo, hi)
  {
    forall i | lo <= i < hi ensures NodeStored(db', H, leaves, c, j, i) {
      assert NodeStored(db, H, leaves, c, j, i);
    }
  }

  /** Every node of the tree of commit `c` over `leaves` can be loaded. */
  ghost predicate TreeStored(db: Store, H: HashFn, leaves: seq<Digest>, c: nat) {
    forall j :: 0 <= j <= Height(|leaves|) ==> RowStored(db, H, leaves, c, j, 0, Width(|leaves|, j))
  }

  ghost predicate KeyWithin(k: Key, n: nat, commits: nat) {
    match k.commit
    case None => k.index < Whole(n, k.level)
    case Some(c) => c < commits
  }

  ghost predicate Extends(db: Store, db': Store) {
    forall k :: k in db ==> k in db' && db'[k] == db[k]
  }

  lemma TreeStaysStored(db: Store, db': Store, H: HashFn, leaves: seq<Digest>, c: nat)
    requires TreeStored(db, H, leaves, c) && Extends(db, db')
    ensures TreeStored(db', H, leaves, c)
  {
    forall j | 0 <= j <= Height(|leaves|)
      ensures RowStored(db', H, leaves, c, j, 0, Width(|leaves|, j))
    {
      RowStaysStored(db, db', H, leaves, c, j, 0, Width(|leaves|, j));
    }
  }

  /** A node that was whole at the previous commit is where the new commit looks for it. */
  lemma WholeNodeStored(db: Store, H: HashFn, leaves: seq<Digest>, more: seq<Digest>, c: nat, c': nat, j: nat, i: nat)
    requires TreeStored(db, H, leaves, c) && i < Whole(|leaves|, j)
    ensures NodeStored(db, H, leaves + more, c', j, i)
  {
    WholeBelowHeight(|leaves|, j);
    WholeNodesAreFinal(H, leaves, more, j, i);
    WholeMonotone(|leaves|, |leaves + more|, j);
    assert RowStored(db, H, leaves, c, j, 0, Width(|leaves|, j));
    assert NodeStored(db, H, leaves, c, j, i);
  }

  /** The tree of commit `c'`, given the nodes stored by it and the tree of the commit before. */
  lemma WholeTreeStored(db: Store, H: HashFn, leaves: seq<Digest>, more: seq<Digest>, c: nat, c': nat)
    requires leaves == [] || TreeStored(db, H, leaves, c)
    requires NewRowsStored(db, H, leaves + more, |leaves|, c', Height(|leaves + more|))
    ensures TreeStored(db, H, leaves + more, c')
  {
    forall j | 0 <= j <= Height(|leaves + more|)
      ensures RowStored(db, H, leaves + more, c', j, 0, Width(|leaves + more|, j))
    {
      assert RowStored(db, H, leaves + more, c', j, Whole(|leaves|, j), Width(|leaves + more|, j));
      forall i | 0 <= i < Width(|leaves + more|, j)
        ensures NodeStored(db, H, leaves + more, c', j, i)
      {
        if i < Whole(|leaves|, j) {
          WholeOfZero(j);
          WholeNodeStored(db, H, leaves, more, c, c', j, i);
        }
      }
    }
  }

  /** Up to height `top`, every node that is new since the first `before` leaves can be loaded. */
  ghost predicate NewRowsStored(db: Store, H: HashFn, leaves: seq<Digest>, before: nat, c: nat, top: nat) {
    forall j :: 0 <= j <= top ==> RowStored(db, H, leaves, c, j, Whole(before, j), Width(|leaves|, j))
  }

  lemma NewRowsStayStored(db: Store, db': Store, H: HashFn, leaves: seq<Digest>, before: nat, c: nat, top: nat)
    requires NewRowsStored(db, H, leaves, before, c, top) && Extends(db, db')
    requires RowStored(db', H, leaves, c, top + 1, Whole(before, top + 1), Width(|leaves|, top + 1))
    ensures NewRowsStored(db', H, leaves, before, c, top + 1)
  {
    forall j | 0 <= j <= top
      ensures RowStored(db', H, leaves, c, j, Whole(before, j), Width(|leaves|, j))
    {
      RowStaysStored(db, db', H, leaves, c, j, Whole(before, j), Width(|leaves|, j));
    }
  }

  /** Keys up to height `level` are those of the new commit; higher ones are old. */
  ghost predicate KeysUpTo(db: Store, n: nat, before: nat, commit: nat, level: nat) {
    && (forall k :: k in db ==> KeyWithin(k, n, commit + 1))
    && (forall k :: k in db && k.level > level ==> KeyWithin(k, before, commit))
  }

  /** The key under which `update` stores node `p` of a row of `w` nodes; `complete` says that the last
      node is whole. */
  function RowKey(j: nat, p: nat, w: nat, complete: bool, commit: nat): Key {
    Key(j, p, if p + 1 == w && !complete then Some(commit) else None)
  }

  /** The store after putting nodes `lo` to `hi` of a row. */
  function PutRow(db: Store, j: nat, row: seq<Digest>, lo: nat, hi: nat, complete: bool, commit: nat): Store
    requires hi <= |row|
  {
    if hi <= lo then db
    else PutRow(db, j, row, lo, hi - 1, complete, commit)[RowKey(j, hi - 1, |row|, complete, commit) := row[hi - 1]]
  }

  lemma RowKeyIsKeyOf(n: nat, j: nat, p: nat, commit: nat)
    requires p < Width(n, j)
    ensures RowKey(j, p, Width(n, j), Whole(n, j) == Width(n, j), commit) == KeyOf(n, commit, j, p)
  {
    WidthWhole(n, j);
  }

  /** Putting the new nodes of height `j`: they can be loaded, and no stored record changes. */
  lemma {:induction false} PutRowStores(db: Store, H: HashFn, all: seq<Digest>, before: nat, commit: nat, j: nat,
                                        hi: nat)
    requires j > 0 && KeysUpTo(db, |all|, before, commit, j - 1)
    requires Whole(before, j) <= hi <= Width(|all|, j)
    ensures var db' := PutRow(db, j, Level(H, all, j), Whole(before, j), hi, Whole(|all|, j) == Width(|all|, j),
              commit);
            && Extends(db, db') && KeysUpTo(db', |all|, before, commit, j)
            && (forall k :: k in db' && k.level == j ==> KeyWithin(k, before, commit) || k.index < hi)
            && RowStored(db', H, all, commit, j, Whole(before, j), hi)
    decreases hi
  {
    if hi > Whole(before, j) {
      var row, lo, complete := Level(H, all, j), Whole(before, j), Whole(|all|, j) == Width(|all|, j);
      var db1 := PutRow(db, j, row, lo, hi - 1, complete, commit);
      var k := RowKey(j, hi - 1, |row|, complete, commit);
      PutRowStores(db, H, all, before, commit, j, hi - 1);
      RowKeyIsKeyOf(|all|, j, hi - 1, commit);
      assert k !in db1;
      assert NodeStored(db1[k := row[hi - 1]], H, all, commit, j, hi - 1);
      RowStaysStored(db1, db1[k := row[hi - 1]], H, all, commit, j, lo, hi - 1);
    }
  }

  lemma LoadNode(db: Store, H: HashFn, leaves: seq<Digest>, c: nat, j: nat, i: nat)
    requires TreeStored(db, H, leaves, c) && j <= Height(|leaves|) && i < Width(|leaves|, j)
    ensures Get(db, KeyOf(|leaves|, c, j, i)) == Some(Level(H, leaves, j)[i])
  {
    assert RowStored(db, H, leaves, c, j, 0, Width(|leaves|, j));
    assert NodeStored(db, H, leaves, c, j, i);
  }

  /** The record that `getProof` loads at height `j`. */
  function LoadSibling(db: Store, c: nat, j: nat, ptr: nat, last: nat, complete: bool): Option<Digest> {
    if ptr % 2 == 1 then Get(db, Key(j, ptr - 1, None))
    else if ptr == last then None
    else Get(db, Key(j, ptr + 1, if ptr + 1 == last && j > 0 && !complete then Some(c) else None))
  }

  /** One turn of the loop of `getProof`. */
  method LoadEntry(db: Store, commit: nat, level: nat, ptr: nat, last: nat, complete: bool)
    returns (res: Option<Digest>, side: nat)
    ensures res == LoadSibling(db, commit, level, ptr, last, complete) && side == Side(ptr)
  {
    res := None;
    if ptr % 2 == 0 {
      side := 1;
      if ptr != last {
        var siblingKey := Key(level, ptr + 1, None);
        if ptr + 1 == last && level > 0 && !complete {
          siblingKey := siblingKey.(commit := Some(commit));
        }
        res := Get(db, siblingKey);
      }
    } else {
      res := Get(db, Key(level, ptr - 1, None));
      side := 0;
    }
  }

  ghost predicate LastPairWhole(n: nat, j: nat)
    requires n > 0
  {
    Whole(n, j) == Width(n, j) && Whole(n - 1, j) % 2 == 1
  }

  lemma LastPairWholeStep(n: nat, j: nat)
    requires n > 0
    ensures LastPairWhole(n, j + 1) <==> LastPairWhole(n, j) && Whole(n - 1, j + 1) % 2 == 1
  {
    WidthOfSuccessor(n - 1, j);
    WidthWhole(n, j);
  }

  lemma LoadedSibling(db: Store, H: HashFn, leaves: seq<Digest>, c: nat, j: nat, block: nat, complete: bool)
    requires TreeStored(db, H, leaves, c) && j < Height(|leaves|) && block < |leaves|
    requires complete <==> LastPairWhole(|leaves|, j)
    ensures IsSibling(H, leaves, block, j,
                      LoadSibling(db, c, j, Whole(block, j), Whole(|leaves| - 1, j), complete))
  {
    var ptr, last := Whole(block, j), Whole(|leaves| - 1, j);
    AncestorInWidth(block, |leaves|, j);
    WidthOfSuccessor(|leaves| - 1, j);
    WidthWhole(|leaves|, j);
    if ptr % 2 == 1 {
      LoadNode(db, H, leaves, c, j, ptr - 1);
      assert KeyOf(|leaves|, c, j, ptr - 1) == Key(j, ptr - 1, None);
    } else if ptr < last {
      LoadNode(db, H, leaves, c, j, ptr + 1);
      var tagged := ptr + 1 == last && j > 0 && !complete;
      assert KeyOf(|leaves|, c, j, ptr + 1) == Key(j, ptr + 1, if tagged then Some(c) else None);
    }
  }

  /** LedgerDB's verifier step; `undef` is what decoding an empty proof entry happens to give. */
  function VerifyStep(undef: Digest): StepFn {
    (acc: Digest, e: Option<Digest>, side: nat) =>
      if side == 0 then Two(if e.Some? then e.value else undef, acc)
      else if e.Some? then Two(acc, e.value)
      else One(acc)
  }

  lemma VerifyStepIsStep(undef: Digest)
    ensures IsStep(VerifyStep(undef))
  {
    forall acc: Digest, e: Option<Digest>, side: nat
      ensures StepAt(VerifyStep(undef), acc, e, side)
    {
    }
  }

  method Verify(H: HashFn, undef: Digest, p: Proof) returns (accepted: bool)
    requires |p.proof| <= |p.pos|
    ensures accepted <==>
            Climb(H, VerifyStep(undef), if p.value.Some? then p.value.value else undef, p.proof, p.pos, |p.proof|)
              == if p.digest.Some? then p.digest.value else undef
  {
    var start: Digest := if p.value.Some? then p.value.value else undef;
    var calculated := start;
    var i := 0;
    while i < |p.proof|
      invariant 0 <= i <= |p.proof|
      invariant calculated == Climb(H, VerifyStep(undef), start, p.proof, p.pos, i)
    {
      var proofHash: Digest := if p.proof[i].Some? then p.proof[i].value else undef;
      if p.pos[i] == 0 {
        calculated := H(Two(proofHash, calculated));
      } else if p.proof[i].Some? {
        calculated := H(Two(calculated, proofHash));
      } else {
        calculated := H(One(calculated));
      }
      i := i + 1;
    }
    accepted := calculated == if p.digest.Some? then p.digest.value else undef;
  }

  /** Every commit so far, `c` made over the first `sizes[c]` leaves, can still load its whole tree. */
  ghost predicate CommitsStored(db: Store, H: HashFn, leaves: seq<Digest>, sizes: seq<nat>) {
    && (if sizes == [] then leaves == [] else sizes[|sizes| - 1] == |leaves|)
    && forall c :: 0 <= c < |sizes| ==> CommitStored(db, H, leaves, sizes[c], c)
  }

  ghost predicate CommitStored(db: Store, H: HashFn, leaves: seq<Digest>, n: nat, c: nat) {
    0 < n <= |leaves| && TreeStored(db, H, leaves[..n], c)
  }

  lemma LatestStored(db: Store, H: HashFn, leaves: seq<Digest>, sizes: seq<nat>)
    requires CommitsStored(db, H, leaves, sizes) && leaves != []
    ensures sizes != [] && TreeStored(db, H, leaves, |sizes| - 1)
  {
    assert CommitStored(db, H, leaves, sizes[|sizes| - 1], |sizes| - 1);
    assert leaves == leaves[..|leaves|];
  }

  /** The node that `update` loads at an odd start is whole, and so stored without a commit number. */
  lemma PreviousNode(db: Store, H: HashFn, leaves: seq<Digest>, sizes: seq<nat>, more: seq<Digest>, level: nat, i: nat)
    requires CommitsStored(db, H, leaves, sizes) && i < Whole(|leaves|, level)
    ensures Key(level, i, None) in db && i < Width(|leaves + more|, level)
    ensures db[Key(level, i, None)] == Level(H, leaves + more, level)[i]
  {
    WholeOfZero(level);
    LatestStored(db, H, leaves, sizes);
    WholeNodeStored(db, H, leaves, more, |sizes| - 1, |sizes|, level, i);
    WholeMonotone(|leaves|, |leaves + more|, level);
  }

  lemma CommitsStayStored(was: Store, db: Store, H: HashFn, leaves: seq<Digest>, sizes: seq<nat>, more: seq<Digest>)
    requires CommitsStored(was, H, leaves, sizes) && Extends(was, db) && more != []
    requires NewRowsStored(db, H, leaves + more, |leaves|, |sizes|, Height(|leaves + more|))
    ensures CommitsStored(db, H, leaves + more, sizes + [|leaves + more|])
  {
    var all, sizes' := leaves + more, sizes + [|leaves + more|];
    forall c | 0 <= c < |sizes'|
      ensures CommitStored(db, H, all, sizes'[c], c)
    {
      if c < |sizes| {
        assert CommitStored(was, H, leaves, sizes[c], c);
        assert all[..sizes[c]] == leaves[..sizes[c]];
        TreeStaysStored(was, db, H, leaves[..sizes[c]], c);
      } else {
        assert all == all[..|all|];
        if leaves != [] {
          LatestStored(was, H, leaves, sizes);
          TreeStaysStored(was, db, H, leaves, |sizes| - 1);
        }
        WholeTreeStored(db, H, leaves, more, if c == 0 then 0 else c - 1, c);
      }
    }
  }

  /** The state of `update` at height `level`. */
  ghost predicate UpTo(was: Store, db: Store, H: HashFn, all: seq<Digest>, before: nat, commit: nat, level: nat,
                       start: nat, hashes: seq<Digest>, complete: bool)
  {
    && start == Whole(before, level) < Width(|all|, level) && hashes == Level(H, all, level)[start..]
    && (complete <==> Whole(|all|, level) == Width(|all|, level))
    && Extends(was, db) && KeysUpTo(db, |all|, before, commit, level)
    && NewRowsStored(db, H, all, before, commit, level)
    && Height(|all|) == level + Height(Width(|all|, level))
  }

  lemma RowDone(was: Store, db: Store, db': Store, H: HashFn, all: seq<Digest>, before: nat, commit: nat, level: nat,
                complete: bool)
    requires before < |all| && Width(|all|, level) > 1 && Whole(before, level) < Width(|all|, level)
    requires UpTo(was, db, H, all, before, commit, level, Whole(before, level),
               Level(H, all, level)[Whole(before, level)..], complete)
    requires db' == PutRow(db, level + 1, Level(H, all, level + 1), Whole(before, level + 1), Width(|all|, level + 1),
                           complete && Width(|all|, level) % 2 == 0, commit)
    ensures Whole(before, level + 1) < Width(|all|, level + 1)
    ensures UpTo(was, db', H, all, before, commit, level + 1, Whole(before, level + 1),
                 Level(H, all, level + 1)[Whole(before, level + 1)..], complete && Width(|all|, level) % 2 == 0)
  {
    WidthWhole(|all|, level);
    AncestorInWidth(before, |all|, level + 1);
    PutRowStores(db, H, all, before, commit, level + 1, Width(|all|, level + 1));
    NewRowsStayStored(db, db', H, all, before, commit, level);
    HeightOfWidth(|all|, level + 1);
  }

  lemma AtTheTop(was: Store, db: Store, H: HashFn, all: seq<Digest>, before: nat, commit: nat, level: nat, start: nat,
                 hashes: seq<Digest>, complete: bool)
    requires UpTo(was, db, H, all, before, commit, level, start, hashes, complete) && start == 0 && |hashes| == 1
    ensures hashes[0] == Root(H, all)
    ensures Key(level, 0, if complete then None else Some(commit)) == RootKey(|all|, commit)
    ensures Extends(was, db) && (forall k :: k in db ==> KeyWithin(k, |all|, commit + 1))
    ensures NewRowsStored(db, H, all, before, commit, Height(|all|))
  {
    RootIsTop(H, all);
    WidthWhole(|all|, level);
  }

  /** One turn of the inner loop of `update`: the parent of the pair at `i`, or of the lone node there. */
  method MakeParent(H: HashFn, level: nat, start: nat, i: nat, hashes: seq<Digest>, complete: bool, commit: nat)
    returns (key: Key, parent: Digest, complete': bool)
    requires start % 2 == 0 && i % 2 == 0 && i < |hashes|
    ensures parent == H(if i + 1 < |hashes| then Two(hashes[i], hashes[i + 1]) else One(hashes[i]))
    ensures complete' == (complete && i + 1 < |hashes|)
    ensures key == Key(level + 1, (start + i) / 2, if i + 2 >= |hashes| && !complete' then Some(commit) else None)
  {
    key, complete' := Key(level + 1, (start + i) / 2, None), complete;
    if i + 1 < |hashes| {
      parent := H(Two(hashes[i], hashes[i + 1]));
      if i + 1 == |hashes| - 1 && !complete' {
        key := key.(commit := Some(commit));
      }
    } else {
      parent := H(One(hashes[i]));
      key := key.(commit := Some(commit));
      complete' := false;
    }
  }

  class MerkleTree {
    const H: HashFn
    var db: Store
    ghost var leaves: seq<Digest>
    ghost var sizes: seq<nat>  // number of leaves after each commit

    ghost predicate Valid()
      reads this
    {
      && (forall k :: k in db ==> KeyWithin(k, |leaves|, |sizes|))
      && CommitsStored(db, H, leaves, sizes)
    }

    constructor (H: HashFn)
      ensures Valid() && this.H == H && leaves == [] && sizes == []
    {
      this.H := H;
      db, leaves, sizes := map[], [], [];
    }

    /** The inner loop of `update`: hashes and stores the parents of the nodes of `row` from `start` on. */
    method BuildParents(level: nat, start: nat, hashes: seq<Digest>, complete: bool, commit: nat,
                        ghost row: seq<Digest>)
      returns (parents: seq<Digest>, complete': bool)
      requires start % 2 == 0 && start < |row| && hashes == row[start..]
      modifies this`db
      ensures complete' == (complete && |row| % 2 == 0)
      ensures parents == Up(H, row)[start / 2..]
      ensures db == PutRow(old(db), level + 1, Up(H, row), start / 2, (|row| + 1) / 2, complete', commit)
    {
      parents, complete' := [], complete;
      ghost var up, whole := Up(H, row), complete && |row| % 2 == 0;
      var i := 0;
      while i < |hashes|
        invariant i % 2 == 0 && start / 2 + i / 2 <= |up|
        invariant i >= |hashes| ==> start / 2 + i / 2 == |up| && complete' == whole
        invariant i < |hashes| ==> complete' == complete
        invariant parents == up[start / 2..start / 2 + i / 2]
        invariant db == PutRow(old(db), level + 1, up, start / 2, start / 2 + i / 2, whole, commit)
        decreases |hashes| - i
      {
        assert up[(start + i) / 2] == H(Input(row, (start + i) / 2));
        var parentKey, parent;
        parentKey, parent, complete' := MakeParent(H, level, start, i, hashes, complete', commit);
        db := db[parentKey := parent];
        parents := parents + [parent];
        i := i + 2;
      }
    }

    /** One round of the outer loop of `update`. */
    method UpdateLevel(level: nat, start: nat, hashes: seq<Digest>, complete: bool, prevComplete: bool, commit: nat,
                       prevCommit: Option<nat>, ghost more: seq<Digest>, ghost was: Store)
      returns (parents: seq<Digest>, complete': bool, prevComplete': bool)
      requires CommitsStored(was, H, leaves, sizes) && commit == |sizes| && more != []
      requires UpTo(was, db, H, leaves + more, |leaves|, commit, level, start, hashes, complete)
      requires level > 0 || start % 2 == 0 ==> prevComplete
      requires |hashes| > 1 || start > 0
      modifies this`db
      ensures UpTo(was, db, H, leaves + more, |leaves|, commit, level + 1, start / 2, parents, complete')
      ensures prevComplete' && start / 2 + |parents| < start + |hashes|
    {
      ghost var all := leaves + more;
      ghost var row := Level(H, all, level);
      var start', hashes';
      start', hashes', prevComplete' := LoadPrevious(level, start, hashes, prevComplete, prevCommit, more, was);
      parents, complete' := BuildParents(level, start', hashes', complete, commit, row);
      assert Level(H, all, level + 1) == Up(H, row);
      RowDone(was, old(db), db, H, all, |leaves|, commit, level, complete);
    }

    /** `update` completes the first pair of a level with the node before the batch. That node is always
        whole, so it is found without a commit number. */
    method LoadPrevious(level: nat, start: nat, hashes: seq<Digest>, prevComplete: bool, prevCommit: Option<nat>,
                        ghost more: seq<Digest>, ghost was: Store)
      returns (start': nat, hashes': seq<Digest>, prevComplete': bool)
      requires CommitsStored(was, H, leaves, sizes) && Extends(was, db)
      requires start == Whole(|leaves|, level) < Width(|leaves + more|, level)
      requires hashes == Level(H, leaves + more, level)[start..]
      requires level > 0 || start % 2 == 0 ==> prevComplete
      ensures start' == 2 * (start / 2) && hashes' == Level(H, leaves + more, level)[start'..]
      ensures prevComplete'
    {
      start', hashes', prevComplete' := start, hashes, prevComplete;
      if start % 2 == 1 {
        var prevKey := Key(level, start - 1, None);
        if level > 0 && !prevComplete {
          prevKey := prevKey.(commit := prevCommit);
        }
        PreviousNode(was, H, leaves, sizes, more, level, start - 1);
        hashes' := [db[prevKey]] + hashes;
        start' := start - 1;
        prevComplete' := if start' > 1 then (start' - 1) % 2 == 1 else true;
      }
    }

    method PutLeaves(start: nat, hashes: seq<Digest>, ghost all: seq<Digest>, ghost commit: nat)
      requires start <= |all| && hashes == all[start..]
      requires forall k :: k in db ==> KeyWithin(k, start, commit)
      modifies this`db
      ensures Extends(old(db), db)
      ensures KeysUpTo(db, |all|, start, commit, 0)
      ensures RowStored(db, H, all, commit, 0, start, |all|)
    {
      for i := 0 to |hashes|
        invariant Extends(old(db), db)
        invariant forall k :: k in db ==> k in old(db) || (k.level == 0 && k.commit.None? && k.index < start + i)
        invariant RowStored(db, H, all, commit, 0, start, start + i)
      {
        ghost var db0 := db;
        db := db[Key(0, start + i, None) := hashes[i]];
        assert KeyOf(|all|, commit, 0, start + i) == Key(0, start + i, None);
        assert NodeStored(db, H, all, commit, 0, start + i);
        assert Extends(db0, db) by { assert forall k :: k in old(db) ==> KeyWithin(k, start, commit); }
        RowStaysStored(db0, db, H, all, commit, 0, start, start + i);
      }
      forall k | k in db
        ensures KeyWithin(k, |all|, commit + 1)
      {
        WholeMonotone(start, |all|, k.level);
      }
    }

    /** Appends a batch of leaf hashes. The root returned is the from-scratch root of all leaves so far,
        and nothing already stored changes. */
    method Update(startingBlock: nat, leafHashes: seq<Digest>, prevCommit: Option<nat>)
      returns (rootKey: Key, rootHash: Digest)
      requires Valid() && leafHashes != [] && startingBlock == |leaves|
      requires prevCommit == if sizes == [] then None else Some(|sizes| - 1)
      modifies this
      ensures Valid()
      ensures leaves == old(leaves) + leafHashes && sizes == old(sizes) + [|leaves|]
      ensures rootHash == Root(H, leaves) && rootKey == RootKey(|leaves|, |sizes| - 1)
      ensures Extends(old(db), db)
    {
      ghost var before := |leaves|;
      ghost var all := leaves + leafHashes;
      var commit := if prevCommit.None? then 0 else prevCommit.value + 1;
      var level, start := 0, startingBlock;
      var prevComplete := if startingBlock > 1 then (startingBlock - 1) % 2 == 1 else true;
      var complete := true;
      PutLeaves(startingBlock, leafHashes, all, commit);
      var hashes := leafHashes;
      while |hashes| > 1 || start > 0
        invariant leaves == old(leaves) && sizes == old(sizes)
        invariant start >= 0 && (level > 0 || start % 2 == 0 ==> prevComplete)
        invariant UpTo(old(db), db, H, all, before, commit, level, start, hashes, complete)
        decreases start + |hashes|
      {
        hashes, complete, prevComplete :=
          UpdateLevel(level, start, hashes, complete, prevComplete, commit, prevCommit, leafHashes, old(db));
        start, level := start / 2, level + 1;
      }
      rootKey := Key(level, 0, if complete then None else Some(commit));
      rootHash := hashes[0];
      AtTheTop(old(db), db, H, all, before, commit, level, start, hashes, complete);
      CommitsStayStored(old(db), db, H, leaves, sizes, leafHashes);
      leaves, sizes := all, sizes + [|all|];
    }

    /** The proof that block `block` is in commit `commit`, with tip `tip`. It is accepted against the root
        of that commit however many updates have followed. */
    method GetProof(commit: nat, rootKey: Key, tip: nat, block: nat, ghost undef: Digest) returns (p: Proof)
      requires Valid() && commit < |sizes| && tip + 1 == sizes[commit] && block <= tip
      requires rootKey == RootKey(tip + 1, commit)
      ensures tip < |leaves| && p.digest == Some(Root(H, leaves[..tip + 1])) && p.value == Some(leaves[block])
      ensures IsPath(H, leaves[..tip + 1], block, p.proof, p.pos)
      ensures Climb(H, VerifyStep(undef), p.value.value, p.proof, p.pos, |p.proof|) == p.digest.value
    {
      ghost var then_ := leaves[..tip + 1];
      assert CommitStored(db, H, leaves, sizes[commit], commit);
      RootIsTop(H, then_);
      LoadNode(db, H, then_, commit, Height(tip + 1), 0);
      LoadNode(db, H, then_, commit, 0, block);
      p := Proof(Get(db, rootKey), Get(db, Key(0, block, None)), [], []);
      var proof, pos := CollectPath(commit, rootKey.level, tip, block, then_);
      p := p.(proof := proof, pos := pos);
      VerifyStepIsStep(undef);
      PathReachesRoot(H, VerifyStep(undef), then_, block, p.proof, p.pos);
    }

    /** The loop of `getProof`. */
    method CollectPath(commit: nat, level: nat, tip: nat, block: nat, ghost tree: seq<Digest>)
      returns (proof: seq<Option<Digest>>, pos: seq<nat>)
      requires TreeStored(db, H, tree, commit) && |tree| == tip + 1 && block <= tip && level == Height(tip + 1)
      ensures IsPath(H, tree, block, proof, pos)
    {
      proof, pos := [], [];
      var complete := tip % 2 == 1;
      var ptr, last := block, tip;
      for i := 0 to level
        invariant ptr == Whole(block, i) && last == Whole(tip, i)
        invariant complete <==> LastPairWhole(tip + 1, i)
        invariant IsPathUpTo(H, tree, block, i, proof, pos)
      {
        var res, side := LoadEntry(db, commit, i, ptr, last, complete);
        LoadedSibling(db, H, tree, commit, i, block, complete);
        PathMore(H, tree, block, i, proof, pos, res, side);
        proof, pos := proof + [res], pos + [side];
        LastPairWholeStep(tip + 1, i);
        ptr, last := ptr / 2, last / 2;
        complete := complete && last % 2 == 1;
      }
    }
  }
}
