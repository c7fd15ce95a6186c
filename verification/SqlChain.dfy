/** Decimal numbers and fields separated by a bar (ledger/common/utils.cc). */
module Text {
  const BAR := '|'

  /** `std::to_string` */
  function Dec(n: nat): (s: string)
    ensures |s| > 0 && BAR !in s
  {
    var digit := [('0' as int + n % 10) as char];
    if n < 10 then digit else Dec(n / 10) + digit
  }

  /** `std::stoul` on the output of `Dec` */
  function Num(s: string): nat {
    if s == [] then 0
    else
      var c := s[|s| - 1] as int - '0' as int;
      10 * Num(s[..|s| - 1]) + if c >= 0 then c else 0
  }

  lemma {:induction false} NumOfDec(n: nat)
    ensures Num(Dec(n)) == n
  {
    var digit := [('0' as int + n % 10) as char];
    if n < 10 {
      assert Dec(n) == [] + digit && Dec(n)[..0] == [];
    } else {
      NumOfDec(n / 10);
      assert Dec(n)[..|Dec(n)| - 1] == Dec(n / 10);
    }
  }

  /** `Utils::splitBy(s, '|')`; the empty string has one, empty, field. */
  function Split(s: string): (fields: seq<string>)
    ensures |fields| > 0
  {
    if s == [] then [[]]
    else if s[0] == BAR then [[]] + Split(s[1..])
    else
      var rest := Split(s[1..]);
      [[s[0]] + rest[0]] + rest[1..]
  }

  /** Field `i`; nothing is said about reads past the last field. */
  function Field(s: string, i: nat): string {
    if i < |Split(s)| then Split(s)[i] else ""
  }

  lemma {:induction false} SplitField(a: string, b: string)
    requires BAR !in a
    ensures Split(a + [BAR] + b) == [a] + Split(b)
  {
    if a == [] {
      assert ([] + [BAR] + b)[1..] == b;
    } else {
      SplitField(a[1..], b);
      assert (a + [BAR] + b)[1..] == a[1..] + [BAR] + b;
      assert [a[0]] + a[1..] == a;
    }
  }

  lemma {:induction false} SplitLast(a: string)
    requires BAR !in a
    ensures Split(a) == [a]
  {
    if a != [] {
      SplitLast(a[1..]);
      assert [a[0]] + a[1..] == a;
    }
  }
}

/** SQLLedger's trees and its hash chain of blocks (ledger/sqlledger/sqlldg_mt.cc, sqlledger.cc). */
module SqlChain {
  import opened Options
  import opened Hashing
  import opened Merkle
  import opened Text
  import LedgerTree

  datatype TreeId = OfTxn(tid: nat) | OfBlock(block: nat)

  /** `<tree>|<level>|<index>` */
  datatype Key = Key(tree: TreeId, level: nat, index: nat)

  type Store = map<Key, Digest>

  /** The record of `tree` at a place: the node there, if the tree over `leaves` has one. */
  function NodeOf(H: HashFn, leaves: seq<Digest>, j: nat, i: nat): Option<Digest> {
    if j <= Height(|leaves|) && i < Width(|leaves|, j) then Some(Level(H, leaves, j)[i]) else None
  }

  function Get(db: Store, k: Key): Option<Digest> {
    if k in db then Some(db[k]) else None
  }

  /** The records of `tree` are exactly the nodes of the tree over `leaves`. */
  ghost predicate TreeStored(db: Store, tree: TreeId, H: HashFn, leaves: seq<Digest>) {
    leaves != [] && forall k: Key :: k.tree == tree ==> Get(db, k) == NodeOf(H, leaves, k.level, k.index)
  }

  ghost predicate NoTree(db: Store, tree: TreeId) {
    forall k :: k in db ==> k.tree != tree
  }

  /** Only records of `tree` are written. */
  ghost predicate SameBut(db: Store, db': Store, tree: TreeId) {
    forall k: Key :: k.tree != tree ==> Get(db', k) == Get(db, k)
  }

  /** The records of `tree` are the rows below `top`, and row `top` up to `hi`. */
  ghost predicate RowsStored(db: Store, tree: TreeId, H: HashFn, leaves: seq<Digest>, top: nat, hi: nat) {
    forall k: Key :: k.tree == tree ==> NodeStored(db, H, leaves, top, hi, k)
  }

  ghost predicate NodeStored(db: Store, H: HashFn, leaves: seq<Digest>, top: nat, hi: nat, k: Key) {
    Get(db, k) ==
      if k.level < top || (k.level == top && k.index < hi) then NodeOf(H, leaves, k.level, k.index) else None
  }

  function LeafHashes(HS: string -> Digest, leaves: seq<string>): (hashes: seq<Digest>)
    ensures |hashes| == |leaves| && forall i :: 0 <= i < |leaves| ==> hashes[i] == HS(leaves[i])
  {
    if leaves == [] then [] else LeafHashes(HS, leaves[..|leaves| - 1]) + [HS(leaves[|leaves| - 1])]
  }

  /** `Build`: stores every node of the tree over the hashes of `leaves`; nothing for no leaves. */
  method Build(db: Store, H: HashFn, HS: string -> Digest, tree: TreeId, leaves: seq<string>)
    returns (db': Store, top: Option<(nat, Digest)>)
    requires NoTree(db, tree)
    ensures SameBut(db, db', tree)
    ensures leaves == [] ==> top == None && db' == db
    ensures leaves != [] ==>
              && TreeStored(db', tree, H, LeafHashes(HS, leaves))
              && top == Some((Height(|leaves|), Root(H, LeafHashes(HS, leaves))))
  {
    db', top := db, None;
    if |leaves| == 0 {
      return;
    }
    ghost var all := LeafHashes(HS, leaves);
    var level, hashes := 0, [];
    db', hashes := PutLeaves(db, H, HS, tree, leaves);
    while |hashes| > 1
      invariant hashes == Level(H, all, level) && SameBut(db, db', tree)
      invariant Width(|all|, level) > 0 && RowsStored(db', tree, H, all, level, Width(|all|, level))
      invariant Height(|all|) == level + Height(Width(|all|, level))
      decreases |hashes|
    {
      db', hashes := BuildRow(db', H, hashes, tree, level, all);
      HeightOfWidth(|all|, level + 1);
      level := level + 1;
    }
    RootIsTop(H, all);
    top := Some((level, hashes[0]));
  }

  method PutLeaves(db: Store, ghost H: HashFn, HS: string -> Digest, tree: TreeId, leaves: seq<string>)
    returns (db': Store, hashes: seq<Digest>)
    requires NoTree(db, tree)
    ensures hashes == LeafHashes(HS, leaves) && SameBut(db, db', tree)
    ensures RowsStored(db', tree, H, LeafHashes(HS, leaves), 0, |leaves|)
  {
    db', hashes := db, [];
    ghost var all := LeafHashes(HS, leaves);
    for i := 0 to |leaves|
      invariant hashes == all[..i] && SameBut(db, db', tree) && RowsStored(db', tree, H, all, 0, i)
    {
      var leafHash := HS(leaves[i]);
      PutParent(db', tree, H, all, 0, i, leafHash);
      hashes := hashes + [leafHash];
      db' := db'[Key(tree, 0, i) := leafHash];
    }
  }

  method BuildRow(db: Store, H: HashFn, row: seq<Digest>, tree: TreeId, level: nat, ghost leaves: seq<Digest>)
    returns (db': Store, parents: seq<Digest>)
    requires row == Level(H, leaves, level) && level < Height(|leaves|)
    requires RowsStored(db, tree, H, leaves, level, |row|)
    ensures parents == Level(H, leaves, level + 1) && SameBut(db, db', tree)
    ensures RowsStored(db', tree, H, leaves, level + 1, |parents|)
  {
    db', parents := db, [];
    ghost var up := Up(H, row);
    var i := 0;
    while i < |row|
      invariant i % 2 == 0 && i / 2 <= |up| && (i >= |row| ==> i / 2 == |up|)
      invariant parents == up[..i / 2] && SameBut(db, db', tree)
      invariant RowsStored(db', tree, H, leaves, level + 1, i / 2)
      decreases |row| - i
    {
      var parent := if i + 1 < |row| then H(Two(row[i], row[i + 1])) else H(One(row[i]));
      ParentIs(H, row, i, parent);
      PutParent(db', tree, H, leaves, level + 1, i / 2, parent);
      db' := db'[Key(tree, level + 1, i / 2) := parent];
      parents := parents + [parent];
      i := i + 2;
    }
  }

  lemma ParentIs(H: HashFn, row: seq<Digest>, i: nat, parent: Digest)
    requires i % 2 == 0 && i < |row|
    requires parent == if i + 1 < |row| then H(Two(row[i], row[i + 1])) else H(One(row[i]))
    ensures i / 2 < |Up(H, row)| && Up(H, row)[i / 2] == parent
    ensures Up(H, row)[..i / 2] + [parent] == Up(H, row)[..i / 2 + 1]
    ensures i + 2 >= |row| ==> i / 2 + 1 == |Up(H, row)|
  {
    assert Up(H, row)[i / 2] == H(Input(row, i / 2));
  }

  lemma PutParent(db: Store, tree: TreeId, H: HashFn, leaves: seq<Digest>, level: nat, i: nat, parent: Digest)
    requires RowsStored(db, tree, H, leaves, level, i) && level <= Height(|leaves|) && i < Width(|leaves|, level)
    requires parent == Level(H, leaves, level)[i]
    ensures var db' := db[Key(tree, level, i) := parent];
            RowsStored(db', tree, H, leaves, level, i + 1) && SameBut(db, db', tree)
  {
    var here := Key(tree, level, i);
    var db' := db[here := parent];
    forall k: Key | k.tree == tree
      ensures NodeStored(db', H, leaves, level, i + 1, k)
    {
      assert NodeStored(db, H, leaves, level, i, k);
      if k == here {
        assert NodeOf(H, leaves, level, i) == Some(parent);
      } else {
        assert !(k.level == level && k.index == i);
      }
    }
  }

  /** `GetProof`: the path of leaf `index`; a sibling that is not in the store is an empty entry. */
  method GetProof(db: Store, tree: TreeId, level: nat, index: nat, ghost H: HashFn, ghost leaves: seq<Digest>)
    returns (proof: seq<Option<Digest>>, pos: seq<nat>, digest: Option<Digest>)
    requires TreeStored(db, tree, H, leaves) && level == Height(|leaves|) && index < |leaves|
    ensures IsPath(H, leaves, index, proof, pos) && digest == Some(Root(H, leaves))
  {
    proof, pos := [], [];
    var ptr := index;
    for i := 0 to level
      invariant ptr == Whole(index, i) && |proof| == i && IsSides(index, i, pos)
      invariant forall j :: 0 <= j < i ==> IsSibling(H, leaves, index, j, proof[j])
    {
      AncestorInWidth(index, |leaves|, i);
      var res;
      if ptr % 2 == 0 {
        res := Get(db, Key(tree, i, ptr + 1));
        pos := pos + [1];
      } else {
        res := Get(db, Key(tree, i, ptr - 1));
        pos := pos + [0];
      }
      assert IsSibling(H, leaves, index, i, res);
      proof := proof + [res];
      ptr := ptr / 2;
    }
    RootIsTop(H, leaves);
    digest := Get(db, Key(tree, level, 0));
  }

  /** `T` is `ToBase32`: an injective encoding (`U` decodes it) without a bar. */
  ghost predicate IsEncoding(T: Digest -> string, U: string -> Digest) {
    forall d :: U(T(d)) == d && BAR !in T(d)
  }

  /** The record of a block: the hash of the block before, its own tree root and tree height. */
  function BlockText(T: Digest -> string, prev: string, root: Digest, level: nat): string {
    prev + [BAR] + T(root) + [BAR] + Dec(level)
  }

  /** The hash that a new block is chained to: that of the last record, or "" for the first block. */
  function LastHash(HS: string -> Digest, T: Digest -> string, texts: seq<string>): string {
    if texts == [] then "" else T(HS(texts[|texts| - 1]))
  }

  /** `texts` is the chain of records of blocks with the given transaction entries. */
  ghost predicate IsChain(H: HashFn, HS: string -> Digest, T: Digest -> string, blocks: seq<seq<string>>,
                          texts: seq<string>) {
    |texts| == |blocks| && forall b {:trigger IsRecord(H, HS, T, blocks[b], texts, b)} :: 0 <= b < |blocks| ==>
        IsRecord(H, HS, T, blocks[b], texts, b)
  }

  ghost predicate IsRecord(H: HashFn, HS: string -> Digest, T: Digest -> string, entries: seq<string>,
                           texts: seq<string>, b: nat)
    requires b < |texts|
  {
    && entries != []
    && texts[b] == BlockText(T, LastHash(HS, T, texts[..b]), Root(H, LeafHashes(HS, entries)), Height(|entries|))
  }

  /** The chain is determined by the entries. */
  lemma {:induction false} ChainIsUnique(H: HashFn, HS: string -> Digest, T: Digest -> string, blocks: seq<seq<string>>,
                                         texts: seq<string>, texts': seq<string>, n: nat)
    requires IsChain(H, HS, T, blocks, texts) && IsChain(H, HS, T, blocks, texts') && n <= |blocks|
    ensures texts[..n] == texts'[..n]
  {
    if n > 0 {
      ChainIsUnique(H, HS, T, blocks, texts, texts', n - 1);
      assert IsRecord(H, HS, T, blocks[n - 1], texts, n - 1) && IsRecord(H, HS, T, blocks[n - 1], texts', n - 1);
      assert texts[..n] == texts[..n - 1] + [texts[n - 1]] && texts'[..n] == texts'[..n - 1] + [texts'[n - 1]];
    }
  }

  lemma ExtendChain(H: HashFn, HS: string -> Digest, T: Digest -> string, blocks: seq<seq<string>>, texts: seq<string>,
                    entries: seq<string>)
    requires IsChain(H, HS, T, blocks, texts) && entries != []
    ensures var text := BlockText(T, LastHash(HS, T, texts), Root(H, LeafHashes(HS, entries)), Height(|entries|));
            IsChain(H, HS, T, blocks + [entries], texts + [text])
  {
    var text := BlockText(T, LastHash(HS, T, texts), Root(H, LeafHashes(HS, entries)), Height(|entries|));
    forall b | 0 <= b < |texts| + 1
      ensures IsRecord(H, HS, T, (blocks + [entries])[b], texts + [text], b)
    {
      if b < |texts| {
        assert IsRecord(H, HS, T, blocks[b], texts, b);
        RecordStays(H, HS, T, blocks[b], texts, text, b);
      } else {
        assert (texts + [text])[..b] == texts;
      }
    }
  }

  lemma RecordStays(H: HashFn, HS: string -> Digest, T: Digest -> string, entries: seq<string>, texts: seq<string>,
                    text: string, b: nat)
    requires b < |texts| && IsRecord(H, HS, T, entries, texts, b)
    ensures IsRecord(H, HS, T, entries, texts + [text], b)
  {
    assert (texts + [text])[..b] == texts[..b];
  }

  /** The fields of a block record. */
  lemma BlockFields(T: Digest -> string, prev: string, root: Digest, level: nat)
    requires BAR !in prev && BAR !in T(root)
    ensures Split(BlockText(T, prev, root, level)) == [prev, T(root), Dec(level)]
  {
    SplitLast(Dec(level));
    SplitThree(prev, T(root), Dec(level));
  }

  lemma SplitThree(a: string, b: string, c: string)
    requires BAR !in a && BAR !in b && Split(c) == [c]
    ensures Split(a + [BAR] + b + [BAR] + c) == [a, b, c]
  {
    var rest := b + [BAR] + c;
    SplitField(b, c);
    SplitField(a, rest);
    assert a + [BAR] + b + [BAR] + c == a + [BAR] + rest;
  }

  /** What the fields of record `b` of the chain say. */
  lemma ChainFields(H: HashFn, HS: string -> Digest, T: Digest -> string, U: string -> Digest, blocks: seq<seq<string>>,
                    texts: seq<string>, b: nat)
    requires IsEncoding(T, U) && IsChain(H, HS, T, blocks, texts) && b < |blocks|
    ensures Field(texts[b], 0) == LastHash(HS, T, texts[..b])
    ensures blocks[b] != [] && Field(texts[b], 1) == T(Root(H, LeafHashes(HS, blocks[b])))
    ensures Field(texts[b], 2) == Dec(Height(|blocks[b]|))
  {
    assert IsRecord(H, HS, T, blocks[b], texts, b);
    var prev, root := LastHash(HS, T, texts[..b]), Root(H, LeafHashes(HS, blocks[b]));
    assert BAR !in prev && BAR !in T(root);
    BlockFields(T, prev, root, Height(|blocks[b]|));
  }

  /** Walking back from the target hash, every record hashes to what the one after it names. */
  ghost predicate Chained(HS: string -> Digest, T: Digest -> string, blks: seq<string>, target: string) {
    blks == []
    || var last := blks[|blks| - 1];
       T(HS(last)) == target && Chained(HS, T, blks[..|blks| - 1], Field(last, 0))
  }

  /** `BlockProof::Verify` */
  method VerifyChain(HS: string -> Digest, T: Digest -> string, blks: seq<string>, hash: string)
    returns (ok: bool, root: string)
    ensures ok <==> Chained(HS, T, blks, hash)
    ensures ok && blks != [] ==> root == Field(blks[0], 1)
  {
    var target := hash;
    root := "";
    var i := |blks|;
    assert blks[..i] == blks;
    while i > 0
      invariant 0 <= i <= |blks|
      invariant Chained(HS, T, blks, hash) <==> Chained(HS, T, blks[..i], target)
      invariant i < |blks| ==> root == Field(blks[i], 1)
    {
      i := i - 1;
      assert blks[..i + 1][..i] == blks[..i];
      if T(HS(blks[i])) != target {
        return false, root;
      }
      target, root := Field(blks[i], 0), Field(blks[i], 1);
    }
    ok := true;
  }

  /** Every record names the hash of the one before it. */
  ghost predicate Linked(HS: string -> Digest, T: Digest -> string, texts: seq<string>) {
    forall b :: 0 <= b < |texts| ==> LinkedAt(HS, T, texts, b)
  }

  ghost predicate LinkedAt(HS: string -> Digest, T: Digest -> string, texts: seq<string>, b: nat) {
    b < |texts| && Field(texts[b], 0) == LastHash(HS, T, texts[..b])
  }

  lemma ChainIsLinked(H: HashFn, HS: string -> Digest, T: Digest -> string, U: string -> Digest,
                      blocks: seq<seq<string>>, texts: seq<string>)
    requires IsEncoding(T, U) && IsChain(H, HS, T, blocks, texts)
    ensures Linked(HS, T, texts)
  {
    forall b | 0 <= b < |texts|
      ensures LinkedAt(HS, T, texts, b)
    {
      ChainFields(H, HS, T, U, blocks, texts, b);
    }
  }

  /** Completeness of the chain: any run of records up to `e` is accepted against the hash of the last. */
  lemma {:induction false} HonestChain(HS: string -> Digest, T: Digest -> string, texts: seq<string>, b: nat, e: nat)
    requires Linked(HS, T, texts) && b <= e <= |texts|
    ensures Chained(HS, T, texts[b..e], LastHash(HS, T, texts[..e]))
    decreases e
  {
    if b < e {
      HonestChain(HS, T, texts, b, e - 1);
      assert LinkedAt(HS, T, texts, e - 1);
      var part, last := texts[b..e], texts[e - 1];
      assert part[..|part| - 1] == texts[b..e - 1] && part[|part| - 1] == last;
      assert texts[..e][e - 1] == last;
    }
  }

  ghost predicate TextsCollide(HS: string -> Digest, a: string, b: string) { a != b && HS(a) == HS(b) }

  /** Binding of the chain: records of the honest number accepted against the honest hash are the honest
      records, or one of them is another text with the same hash. */
  lemma {:induction false} AcceptedChainBinds(HS: string -> Digest, T: Digest -> string, U: string -> Digest,
                                              blks: seq<string>, honest: seq<string>, hash: string)
    requires IsEncoding(T, U) && |blks| == |honest|
    requires Chained(HS, T, honest, hash) && Chained(HS, T, blks, hash)
    ensures blks == honest || exists i :: 0 <= i < |blks| && TextsCollide(HS, blks[i], honest[i])
  {
    if blks != [] {
      var n := |blks| - 1;
      assert U(T(HS(blks[n]))) == U(T(HS(honest[n])));
      if blks[n] == honest[n] {
        AcceptedChainBinds(HS, T, U, blks[..n], honest[..n], Field(honest[n], 0));
        if blks[..n] == honest[..n] {
          assert blks == blks[..n] + [blks[n]] && honest == honest[..n] + [honest[n]];
        } else {
          var i :| 0 <= i < n && TextsCollide(HS, blks[..n][i], honest[..n][i]);
          assert TextsCollide(HS, blks[i], honest[i]);
        }
      }
    }
  }

  /** The entry of a transaction in its block; a transaction without documents has no root and level. */
  function EntryText(T: Digest -> string, tid: nat, block: nat, index: nat, top: Option<(nat, Digest)>): string {
    var root, level := if top.Some? then T(top.value.1) else "", if top.Some? then Dec(top.value.0) else "";
    "txn" + Dec(tid) + [BAR] + (Dec(block) + [BAR] + (Dec(index) + [BAR] + (root + [BAR] + level)))
  }

  /** The fields of an entry: the transaction, its block, its place there, and the root and height of the tree of its
      documents. */
  lemma EntryFields(T: Digest -> string, tid: nat, block: nat, index: nat, top: Option<(nat, Digest)>)
    requires forall d :: BAR !in T(d)
    ensures Split(EntryText(T, tid, block, index, top)) ==
            ["txn" + Dec(tid), Dec(block), Dec(index), if top.Some? then T(top.value.1) else "",
             if top.Some? then Dec(top.value.0) else ""]
  {
    var root, level := if top.Some? then T(top.value.1) else "", if top.Some? then Dec(top.value.0) else "";
    SplitLast(level);
    SplitField(root, level);
    SplitField(Dec(index), root + [BAR] + level);
    SplitField(Dec(block), Dec(index) + [BAR] + (root + [BAR] + level));
    SplitField("txn" + Dec(tid), Dec(block) + [BAR] + (Dec(index) + [BAR] + (root + [BAR] + level)));
  }

  /** What the entry of a transaction with these documents holds. */
  ghost predicate IsEntry(H: HashFn, HS: string -> Digest, T: Digest -> string, entry: string, tid: nat, block: nat,
                          index: nat, docs: seq<string>)
  {
    Split(entry) == ["txn" + Dec(tid), Dec(block), Dec(index),
                     if docs == [] then "" else T(Root(H, LeafHashes(HS, docs))),
                     if docs == [] then "" else Dec(Height(|docs|))]
  }

  // ---- What an entry binds.

  /** Two texts or two inner nodes of the trees over them collide. */
  ghost predicate TreesCollide(H: HashFn, HS: string -> Digest, a: seq<string>, b: seq<string>) {
    || (exists i :: 0 <= i < |a| && i < |b| && TextsCollide(HS, a[i], b[i]))
    || (exists j, i :: RowsCollide(H, LeafHashes(HS, a), LeafHashes(HS, b), j, i))
  }

  lemma SameTreeSameTexts(H: HashFn, HS: string -> Digest, a: seq<string>, b: seq<string>)
    requires a != [] && b != [] && Height(|a|) == Height(|b|)
    requires Root(H, LeafHashes(HS, a)) == Root(H, LeafHashes(HS, b))
    ensures a == b || TreesCollide(H, HS, a, b)
  {
    var s, t := LeafHashes(HS, a), LeafHashes(HS, b);
    SameRootSameLeaves(H, s, t);
    if s == t && a != b {
      assert |a| == |b|;
      var i :| 0 <= i < |a| && a[i] != b[i];
      assert s[i] == t[i];
      assert TextsCollide(HS, a[i], b[i]);
    }
  }

  lemma DecDetermines(m: nat, n: nat)
    requires Dec(m) == Dec(n)
    ensures m == n
  {
    NumOfDec(m);
    NumOfDec(n);
  }

  lemma SameTid(m: nat, n: nat)
    requires "txn" + Dec(m) == "txn" + Dec(n)
    ensures m == n
  {
    assert ("txn" + Dec(m))[3..] == Dec(m) && ("txn" + Dec(n))[3..] == Dec(n);
    DecDetermines(m, n);
  }

  /** An entry binds its transaction, its place and its documents, unless two texts or two nodes collide. */
  lemma EntryBindsDocs(H: HashFn, HS: string -> Digest, T: Digest -> string, U: string -> Digest, entry: string,
                       tid: nat, block: nat, index: nat, docs: seq<string>, tid': nat, block': nat, index': nat,
                       docs': seq<string>)
    requires IsEncoding(T, U)
    requires IsEntry(H, HS, T, entry, tid, block, index, docs) && IsEntry(H, HS, T, entry, tid', block', index', docs')
    ensures tid == tid' && block == block' && index == index'
    ensures docs == docs' || TreesCollide(H, HS, docs, docs')
  {
    var fields := Split(entry);
    assert fields[0] == "txn" + Dec(tid) && fields[0] == "txn" + Dec(tid');
    assert fields[1] == Dec(block) && fields[1] == Dec(block') && fields[2] == Dec(index) && fields[2] == Dec(index');
    SameTid(tid, tid');
    DecDetermines(block, block');
    DecDetermines(index, index');
    SameDocsField(H, HS, T, U, fields[3], fields[4], docs, docs');
  }

  lemma SameDocsField(H: HashFn, HS: string -> Digest, T: Digest -> string, U: string -> Digest, root: string,
                      level: string, docs: seq<string>, docs': seq<string>)
    requires IsEncoding(T, U) && DocsField(H, HS, T, root, level, docs) && DocsField(H, HS, T, root, level, docs')
    ensures docs == docs' || TreesCollide(H, HS, docs, docs')
  {
    if docs != [] && docs' != [] {
      DecDetermines(Height(|docs|), Height(|docs'|));
      assert U(root) == Root(H, LeafHashes(HS, docs)) && U(root) == Root(H, LeafHashes(HS, docs'));
      SameTreeSameTexts(H, HS, docs, docs');
    }
  }

  ghost predicate DocsField(H: HashFn, HS: string -> Digest, T: Digest -> string, root: string, level: string,
                            docs: seq<string>)
  {
    && root == (if docs == [] then "" else T(Root(H, LeafHashes(HS, docs))))
    && level == if docs == [] then "" else Dec(Height(|docs|))
  }

  lemma TreeStaysStored(db: Store, db': Store, other: TreeId, tree: TreeId, H: HashFn, leaves: seq<Digest>)
    requires TreeStored(db, tree, H, leaves) && SameBut(db, db', other) && other != tree
    ensures TreeStored(db', tree, H, leaves)
  {
  }

  /** The trees of all blocks and of all transactions with documents. */
  ghost predicate TreesStored(db: Store, H: HashFn, HS: string -> Digest, blocks: seq<seq<string>>,
                              docs: map<nat, seq<string>>) {
    && (forall k :: k in db ==>
          match k.tree
          case OfBlock(b) => b < |blocks|
          case OfTxn(t) => t in docs)
    && (forall b :: 0 <= b < |blocks| ==> blocks[b] != [] && TreeStored(db, OfBlock(b), H, LeafHashes(HS, blocks[b])))
    && (forall t :: t in docs && docs[t] != [] ==> TreeStored(db, OfTxn(t), H, LeafHashes(HS, docs[t])))
  }

  lemma TreesWithTxn(db: Store, db': Store, H: HashFn, HS: string -> Digest, blocks: seq<seq<string>>,
                     docs: map<nat, seq<string>>, t: nat, ds: seq<string>)
    requires TreesStored(db, H, HS, blocks, docs) && t !in docs && SameBut(db, db', OfTxn(t))
    requires ds != [] ==> TreeStored(db', OfTxn(t), H, LeafHashes(HS, ds))
    ensures TreesStored(db', H, HS, blocks, docs[t := ds])
  {
    forall k | k in db' && k.tree != OfTxn(t) ensures k in db { assert Get(db', k) == Get(db, k); }
  }

  lemma TreesWithBlock(db: Store, db': Store, H: HashFn, HS: string -> Digest, blocks: seq<seq<string>>,
                       docs: map<nat, seq<string>>, entries: seq<string>)
    requires TreesStored(db, H, HS, blocks, docs) && SameBut(db, db', OfBlock(|blocks|)) && entries != []
    requires TreeStored(db', OfBlock(|blocks|), H, LeafHashes(HS, entries))
    ensures TreesStored(db', H, HS, blocks + [entries], docs)
  {
    forall k | k in db' && k.tree != OfBlock(|blocks|) ensures k in db { assert Get(db', k) == Get(db, k); }
    var blocks' := blocks + [entries];
    forall b | 0 <= b < |blocks'|
      ensures blocks'[b] != [] && TreeStored(db', OfBlock(b), H, LeafHashes(HS, blocks'[b]))
    {
      if b < |blocks| {
        assert blocks'[b] == blocks[b];
        TreeStaysStored(db, db', OfBlock(|blocks|), OfBlock(b), H, LeafHashes(HS, blocks[b]));
      }
    }
    forall t | t in docs && docs[t] != [] ensures TreeStored(db', OfTxn(t), H, LeafHashes(HS, docs[t])) {
      TreeStaysStored(db, db', OfBlock(|blocks|), OfTxn(t), H, LeafHashes(HS, docs[t]));
    }
  }

  /** The entry records of the transactions in `docs` stay as they were. */
  ghost predicate EntriesStay(txns: map<nat, string>, txns': map<nat, string>, docs: map<nat, seq<string>>) {
    forall t :: t in txns && t in docs ==> t in txns' && txns'[t] == txns[t]
  }

  /** The transaction is one of the first `n` of the buffer. */
  ghost predicate Buffered(buffer: seq<(nat, seq<string>)>, n: nat, t: nat) {
    exists i :: 0 <= i < n && i < |buffer| && buffer[i].0 == t
  }

  /** The first `n` transactions of the buffer are entries `leaves` of the block, and what was there stays. */
  ghost predicate Added(H: HashFn, HS: string -> Digest, T: Digest -> string, block: nat,
                        buffer: seq<(nat, seq<string>)>, n: nat, leaves: seq<string>, was: map<nat, string>,
                        txns: map<nat, string>, docs: map<nat, seq<string>>, docs': map<nat, seq<string>>)
  {
    && n == |leaves| <= |buffer| && EntriesStay(was, txns, docs)
    && (forall i :: 0 <= i < n ==> EntryAdded(H, HS, T, block, buffer[i], i, leaves[i], txns, docs'))
    && (forall t :: t in docs ==> t in docs' && docs'[t] == docs[t])
    && (forall t :: t in docs' ==> t in docs || Buffered(buffer, n, t))
  }

  /** The transactions of the buffer are new, and distinct. */
  ghost predicate NewTxns(buffer: seq<(nat, seq<string>)>, docs: map<nat, seq<string>>) {
    && (forall i :: 0 <= i < |buffer| ==> buffer[i].0 !in docs)
    && (forall i, j :: 0 <= i < j < |buffer| ==> buffer[i].0 != buffer[j].0)
  }

  lemma AddedIsNew(H: HashFn, HS: string -> Digest, T: Digest -> string, block: nat,
                   buffer: seq<(nat, seq<string>)>, n: nat, leaves: seq<string>, was: map<nat, string>,
                   txns: map<nat, string>, docs: map<nat, seq<string>>, docs': map<nat, seq<string>>)
    requires Added(H, HS, T, block, buffer, n, leaves, was, txns, docs, docs') && NewTxns(buffer, docs) && n < |buffer|
    ensures buffer[n].0 !in docs'
  {
  }

  lemma AddedMore(H: HashFn, HS: string -> Digest, T: Digest -> string, block: nat,
                  buffer: seq<(nat, seq<string>)>, n: nat, leaves: seq<string>, was: map<nat, string>,
                  txns: map<nat, string>, docs: map<nat, seq<string>>, docs': map<nat, seq<string>>, entry: string)
    requires Added(H, HS, T, block, buffer, n, leaves, was, txns, docs, docs') && NewTxns(buffer, docs) && n < |buffer|
    requires var (tid, ds) := buffer[n];
             EntryAdded(H, HS, T, block, buffer[n], n, entry, txns[tid := entry], docs'[tid := ds])
    ensures var (tid, ds) := buffer[n];
            Added(H, HS, T, block, buffer, n + 1, leaves + [entry], was, txns[tid := entry], docs, docs'[tid := ds])
  {
    var (tid, ds) := buffer[n];
    forall i | 0 <= i < n
      ensures EntryAdded(H, HS, T, block, buffer[i], i, leaves[i], txns[tid := entry], docs'[tid := ds])
    {
      EntryStays(H, HS, T, block, buffer[i], i, leaves[i], txns, docs', tid, entry, ds);
    }
    forall t | t in docs'[tid := ds] ensures t in docs || Buffered(buffer, n + 1, t) {
      assert t != tid ==> t in docs || Buffered(buffer, n, t);
    }
  }

  /** The loop of `updateLedger` over the buffered transactions. */
  method AddTxns(db: Store, H: HashFn, HS: string -> Digest, T: Digest -> string, txns: map<nat, string>,
                 newBlkSeq: nat, buffer: seq<(nat, seq<string>)>, ghost blocks: seq<seq<string>>,
                 ghost docs: map<nat, seq<string>>)
    returns (db': Store, txns': map<nat, string>, leaves: seq<string>, ghost docs': map<nat, seq<string>>)
    requires TreesStored(db, H, HS, blocks, docs) && NewTxns(buffer, docs) && forall d :: BAR !in T(d)
    ensures TreesStored(db', H, HS, blocks, docs')
    ensures Added(H, HS, T, newBlkSeq, buffer, |buffer|, leaves, txns, txns', docs, docs')
  {
    db', txns', leaves, docs' := db, txns, [], docs;
    for i := 0 to |buffer|
      invariant TreesStored(db', H, HS, blocks, docs')
      invariant Added(H, HS, T, newBlkSeq, buffer, i, leaves, txns, txns', docs, docs')
    {
      AddedIsNew(H, HS, T, newBlkSeq, buffer, i, leaves, txns, txns', docs, docs');
      ghost var txns0, docs0 := txns', docs';
      var entry;
      db', txns', entry := AddTxn(db', H, HS, T, txns', newBlkSeq, buffer[i], i, blocks, docs');
      AddedMore(H, HS, T, newBlkSeq, buffer, i, leaves, txns, txns0, docs, docs0, entry);
      docs' := docs'[buffer[i].0 := buffer[i].1];
      leaves := leaves + [entry];
    }
  }

  /** One turn of the loop: the tree of the transaction's documents, and its entry. */
  method AddTxn(db: Store, H: HashFn, HS: string -> Digest, T: Digest -> string, txns: map<nat, string>, block: nat,
                txn: (nat, seq<string>), i: nat, ghost blocks: seq<seq<string>>, ghost docs: map<nat, seq<string>>)
    returns (db': Store, txns': map<nat, string>, entry: string)
    requires TreesStored(db, H, HS, blocks, docs) && txn.0 !in docs && forall d :: BAR !in T(d)
    ensures TreesStored(db', H, HS, blocks, docs[txn.0 := txn.1]) && txns' == txns[txn.0 := entry]
    ensures EntryAdded(H, HS, T, block, txn, i, entry, txns', docs[txn.0 := txn.1])
  {
    var top;
    db', top := Build(db, H, HS, OfTxn(txn.0), txn.1);
    TreesWithTxn(db, db', H, HS, blocks, docs, txn.0, txn.1);
    entry := EntryText(T, txn.0, block, i, top);
    EntryFields(T, txn.0, block, i, top);
    txns' := txns[txn.0 := entry];
  }

  lemma EntryStays(H: HashFn, HS: string -> Digest, T: Digest -> string, block: nat, txn: (nat, seq<string>), i: nat,
                   entry: string, txns: map<nat, string>, docs: map<nat, seq<string>>, other: nat, text: string,
                   ds: seq<string>)
    requires EntryAdded(H, HS, T, block, txn, i, entry, txns, docs) && other != txn.0
    ensures EntryAdded(H, HS, T, block, txn, i, entry, txns[other := text], docs[other := ds])
  {
  }

  /** Transaction `txn` is entry `i` of the block, under its id, with the root of the tree of its documents. */
  ghost predicate EntryAdded(H: HashFn, HS: string -> Digest, T: Digest -> string, block: nat, txn: (nat, seq<string>),
                             i: nat, entry: string, txns: map<nat, string>, docs: map<nat, seq<string>>)
  {
    && txn.0 in docs && docs[txn.0] == txn.1
    && IsEntry(H, HS, T, entry, txn.0, block, i, txn.1)
    && txn.0 in txns && txns[txn.0] == entry
  }

  /** The block records and the digest record hold the chain `texts`. */
  ghost predicate RecordsStored(HS: string -> Digest, T: Digest -> string, blks: map<nat, string>, digest: string,
                                texts: seq<string>) {
    BlocksHeld(blks, texts) && digest == DigestText(HS, T, texts)
  }

  ghost predicate BlocksHeld(blks: map<nat, string>, texts: seq<string>) {
    forall b :: 0 <= b < |texts| ==> b in blks && blks[b] == texts[b]
  }

  /** The digest record: the hash and the number of the last block. */
  function DigestText(HS: string -> Digest, T: Digest -> string, texts: seq<string>): string {
    if texts == [] then "" else NumberedHash(LastHash(HS, T, texts), |texts| - 1)
  }

  function NumberedHash(hash: string, n: nat): string { hash + [BAR] + Dec(n) }

  /** The end of `updateLedger`: chains the block with tree top `top` to the digest record. */
  method ChainBlock(HS: string -> Digest, T: Digest -> string, blks: map<nat, string>, digest: string, newBlkSeq: nat,
                    top: (nat, Digest), ghost texts: seq<string>)
    returns (blks': map<nat, string>, digest': string, ghost newBlock: string)
    requires RecordsStored(HS, T, blks, digest, texts) && newBlkSeq == |texts|
    requires forall d :: BAR !in T(d)
    ensures newBlock == BlockText(T, LastHash(HS, T, texts), top.1, top.0)
    ensures RecordsStored(HS, T, blks', digest', texts + [newBlock])
  {
    DigestFields(HS, T, blks, digest, texts);
    var prevHash := Split(digest)[0];
    var block := prevHash + [BAR] + T(top.1) + [BAR] + Dec(top.0);
    newBlock := block;
    blks' := blks[newBlkSeq := block];
    digest' := NumberedHash(T(HS(block)), newBlkSeq);
    MoreBlocks(blks, texts, block);
    MoreDigest(HS, T, texts, block);
  }

  lemma MoreBlocks(blks: map<nat, string>, texts: seq<string>, block: string)
    requires BlocksHeld(blks, texts)
    ensures BlocksHeld(blks[|texts| := block], texts + [block])
  {
  }

  lemma MoreDigest(HS: string -> Digest, T: Digest -> string, texts: seq<string>, block: string)
    ensures DigestText(HS, T, texts + [block]) == NumberedHash(T(HS(block)), |texts|)
  {
    assert LastHash(HS, T, texts + [block]) == T(HS(block));
  }

  lemma DigestFields(HS: string -> Digest, T: Digest -> string, blks: map<nat, string>, digest: string,
                     texts: seq<string>)
    requires RecordsStored(HS, T, blks, digest, texts) && forall d :: BAR !in T(d)
    ensures Split(digest)[0] == LastHash(HS, T, texts)
    ensures texts != [] ==> Field(digest, 1) == Dec(|texts| - 1)
  {
    if texts != [] {
      SplitField(LastHash(HS, T, texts), Dec(|texts| - 1));
      SplitLast(Dec(|texts| - 1));
    }
  }

  /** All records of the database. */
  datatype Records = Records(trees: Store, txns: map<nat, string>, blks: map<nat, string>, digest: string)

  /** What has been added so far: the transactions of each block and their entries, the record of each block, and
      the documents of each transaction. */
  datatype History = History(ids: seq<seq<nat>>, blocks: seq<seq<string>>, texts: seq<string>,
                             docs: map<nat, seq<string>>)

  /** Transaction `t` is number `i` of block `b`. */
  ghost predicate IdAt(h: History, b: nat, i: nat, t: nat) { b < |h.ids| && i < |h.ids[b]| && h.ids[b][i] == t }

  ghost predicate EntryHolds(H: HashFn, HS: string -> Digest, T: Digest -> string, h: History, b: nat, i: nat) {
    && b < |h.ids| && b < |h.blocks| && i < |h.ids[b]| && i < |h.blocks[b]| && h.ids[b][i] in h.docs
    && IsEntry(H, HS, T, h.blocks[b][i], h.ids[b][i], b, i, h.docs[h.ids[b][i]])
  }

  /** The entries of the blocks are those of the transactions, and each transaction is in a block. */
  ghost predicate EntriesHold(H: HashFn, HS: string -> Digest, T: Digest -> string, h: History) {
    && |h.ids| == |h.blocks| && (forall b :: 0 <= b < |h.ids| ==> |h.ids[b]| == |h.blocks[b]|)
    && (forall b, i :: 0 <= b < |h.ids| && 0 <= i < |h.ids[b]| ==> EntryHolds(H, HS, T, h, b, i))
    && (forall t :: t in h.docs ==> exists b, i :: IdAt(h, b, i, t))
  }

  ghost predicate Stored(db: Records, H: HashFn, HS: string -> Digest, T: Digest -> string, h: History) {
    && TreesStored(db.trees, H, HS, h.blocks, h.docs)
    && IsChain(H, HS, T, h.blocks, h.texts)
    && RecordsStored(HS, T, db.blks, db.digest, h.texts)
    && EntriesHold(H, HS, T, h)
  }

  ghost function Ids(buffer: seq<(nat, seq<string>)>): seq<nat> {
    seq(|buffer|, i requires 0 <= i < |buffer| => buffer[i].0)
  }

  /** `h'` is `h` and one more block, with the transactions of `buffer`. */
  ghost predicate BlockAdded(H: HashFn, HS: string -> Digest, T: Digest -> string, h: History, h': History,
                             was: map<nat, string>, txns: map<nat, string>, buffer: seq<(nat, seq<string>)>)
  {
    var n := |h.blocks|;
    && |h'.blocks| == n + 1 && h'.blocks[..n] == h.blocks
    && Added(H, HS, T, n, buffer, |buffer|, h'.blocks[n], was, txns, h.docs, h'.docs)
    && h'.ids == h.ids + [Ids(buffer)]
  }

  lemma MoreEntries(H: HashFn, HS: string -> Digest, T: Digest -> string, h: History, h': History,
                    was: map<nat, string>, txns: map<nat, string>, buffer: seq<(nat, seq<string>)>)
    requires EntriesHold(H, HS, T, h) && BlockAdded(H, HS, T, h, h', was, txns, buffer)
    ensures EntriesHold(H, HS, T, h')
  {
    var n := |h.ids|;
    forall b | 0 <= b < n + 1 ensures |h'.ids[b]| == |h'.blocks[b]| {
      if b < n { assert h'.blocks[..n][b] == h.blocks[b]; }
    }
    forall b, i | 0 <= b < |h'.ids| && 0 <= i < |h'.ids[b]| ensures EntryHolds(H, HS, T, h', b, i) {
      if b < n {
        assert EntryHolds(H, HS, T, h, b, i) && h'.blocks[..n][b] == h.blocks[b];
      } else {
        assert EntryAdded(H, HS, T, n, buffer[i], i, h'.blocks[n][i], txns, h'.docs);
      }
    }
    forall t | t in h'.docs ensures exists b, i :: IdAt(h', b, i, t) { MoreIds(h, h', buffer, t); }
  }

  lemma MoreIds(h: History, h': History, buffer: seq<(nat, seq<string>)>, t: nat)
    requires h'.ids == h.ids + [Ids(buffer)]
    requires (exists b, i :: IdAt(h, b, i, t)) || Buffered(buffer, |buffer|, t)
    ensures exists b, i :: IdAt(h', b, i, t)
  {
    if b: nat, i: nat :| IdAt(h, b, i, t) {
      assert IdAt(h', b, i, t);
    } else {
      var i :| 0 <= i < |buffer| && buffer[i].0 == t;
      assert IdAt(h', |h.ids|, i, t);
    }
  }

  /** One round of `updateLedger` on the records. */
  method AddBlock(db: Records, H: HashFn, HS: string -> Digest, T: Digest -> string, newBlkSeq: nat,
                  buffer: seq<(nat, seq<string>)>, ghost h: History, ghost U: string -> Digest)
    returns (db': Records, ghost h': History)
    requires IsEncoding(T, U) && Stored(db, H, HS, T, h) && newBlkSeq == |h.blocks|
    requires buffer != [] && NewTxns(buffer, h.docs)
    ensures Stored(db', H, HS, T, h') && BlockAdded(H, HS, T, h, h', db.txns, db'.txns, buffer)
    ensures |h'.blocks| == |h.blocks| + 1
  {
    var trees1, txns', leaves, docs' := AddTxns(db.trees, H, HS, T, db.txns, newBlkSeq, buffer, h.blocks, h.docs);
    var trees2, top := Build(trees1, H, HS, OfBlock(newBlkSeq), leaves);
    TreesWithBlock(trees1, trees2, H, HS, h.blocks, docs', leaves);
    var blks', digest', newBlock := ChainBlock(HS, T, db.blks, db.digest, newBlkSeq, top.value, h.texts);
    ExtendChain(H, HS, T, h.blocks, h.texts, leaves);
    db' := Records(trees2, txns', blks', digest');
    h' := History(h.ids + [Ids(buffer)], h.blocks + [leaves], h.texts + [newBlock], docs');
    MoreEntries(H, HS, T, h, h', db.txns, txns', buffer);
  }

  class SqlLedger {
    const H: HashFn
    const HS: string -> Digest
    const T: Digest -> string
    ghost const U: string -> Digest
    var db: Records
    var blockSeq: nat
    ghost var h: History

    ghost predicate Valid()
      reads this
    {
      IsEncoding(T, U) && blockSeq == |h.blocks| && Stored(db, H, HS, T, h)
    }

    constructor (H: HashFn, HS: string -> Digest, T: Digest -> string, ghost U: string -> Digest)
      requires IsEncoding(T, U)
      ensures Valid() && h == History([], [], [], map[]) && this.H == H && this.HS == HS && this.T == T
    {
      this.H, this.HS, this.T, this.U := H, HS, T, U;
      db, blockSeq, h := Records(map[], map[], map[], ""), 0, History([], [], [], map[]);
    }

    /** One round of `updateLedger`. */
    method UpdateLedger(buffer: seq<(nat, seq<string>)>)
      requires Valid() && buffer != [] && NewTxns(buffer, h.docs)
      modifies this
      ensures Valid() && BlockAdded(H, HS, T, old(h), h, old(db.txns), db.txns, buffer)
    {
      var db', h' := AddBlock(db, H, HS, T, blockSeq, buffer, h, U);
      assert BlockAdded(H, HS, T, h, h', db.txns, db'.txns, buffer);
      db, blockSeq, h := db', blockSeq + 1, h';
    }

    /** `GetDigest` */
    method GetDigest() returns (tip: nat, hash: string)
      requires Valid() && h.blocks != []
      ensures tip == |h.blocks| - 1 && hash == LastHash(HS, T, h.texts)
    {
      DigestFields(HS, T, db.blks, db.digest, h.texts);
      NumOfDec(|h.texts| - 1);
      hash, tip := Field(db.digest, 0), Num(Field(db.digest, 1));
    }

    /** `getBlockProof` up to the current tip: it is accepted against the current digest, and what the
        verifier returns is exactly the root of block `block`; `level` is the height of its tree. */
    method GetBlockProof(block: nat, tip: nat) returns (proof: seq<string>, level: nat)
      requires Valid() && block <= tip && tip + 1 == |h.blocks|
      ensures proof == h.texts[block..] && level == Height(|h.blocks[block]|)
      ensures Chained(HS, T, proof, LastHash(HS, T, h.texts))
      ensures proof != [] && h.blocks[block] != [] && Field(proof[0], 1) == T(Root(H, LeafHashes(HS, h.blocks[block])))
    {
      proof, level := CollectBlocks(HS, T, db.blks, db.digest, block, tip, h.texts);
      ChainFields(H, HS, T, U, h.blocks, h.texts, block);
      NumOfDec(Height(|h.blocks[block]|));
      ChainIsLinked(H, HS, T, U, h.blocks, h.texts);
      HonestChain(HS, T, h.texts, block, tip + 1);
      assert h.texts[..tip + 1] == h.texts && h.texts[block..tip + 1] == h.texts[block..];
    }

    /** The proof that entry `index` of block `block` is in the tree of that block is accepted against the
        root that the chain gives for the block. */
    method GetTxnProof(block: nat, level: nat, index: nat, ghost undef: Digest)
      returns (proof: seq<Option<Digest>>, pos: seq<nat>, root: Option<Digest>)
      requires Valid() && block < |h.blocks| && level == Height(|h.blocks[block]|) && index < |h.blocks[block]|
      ensures root == Some(Root(H, LeafHashes(HS, h.blocks[block]))) && |proof| == |pos|
      ensures Climb(H, LedgerTree.VerifyStep(undef), HS(h.blocks[block][index]), proof, pos, |proof|) == root.value
    {
      ghost var leaves := LeafHashes(HS, h.blocks[block]);
      proof, pos, root := GetProof(db.trees, OfBlock(block), level, index, H, leaves);
      LedgerTree.VerifyStepIsStep(undef);
      PathReachesRoot(H, LedgerTree.VerifyStep(undef), leaves, index, proof, pos);
    }
  }

  /** Binding of entries: if the proof of a text, of the honest length and sides for entry `i`, is accepted against
      the root of the block's tree, then the text is that entry, or two texts or two inner nodes collide. */
  lemma AcceptedEntryBinds(H: HashFn, HS: string -> Digest, undef: Digest, value: string, entries: seq<string>, i: nat,
                           proof: seq<Option<Digest>>, pos: seq<nat>)
    requires i < |entries| && |proof| == Height(|entries|) && IsSides(i, |proof|, pos)
    requires Climb(H, LedgerTree.VerifyStep(undef), HS(value), proof, pos, |proof|) == Root(H, LeafHashes(HS, entries))
    ensures || value == entries[i] || TextsCollide(HS, value, entries[i])
            || exists j :: CollidesAt(H, LedgerTree.VerifyStep(undef), LeafHashes(HS, entries), i, HS(value), proof,
                pos, j)
  {
    LedgerTree.VerifyStepIsStep(undef);
    AcceptedProofBinds(H, LedgerTree.VerifyStep(undef), LeafHashes(HS, entries), i, HS(value), proof, pos);
  }

  /** The history is that of a ledger. */
  ghost predicate IsHistory(H: HashFn, HS: string -> Digest, T: Digest -> string, U: string -> Digest, h: History) {
    IsEncoding(T, U) && IsChain(H, HS, T, h.blocks, h.texts) && EntriesHold(H, HS, T, h)
  }

  /** Binding of documents: if a chain of the honest length is accepted against the current digest, an entry is
      accepted against the root that it gives, and the entry is that of some documents, then they are the documents of
      transaction `i` of block `b`, or two texts or two nodes collide. */
  lemma AcceptedDocumentsBind(H: HashFn, HS: string -> Digest, T: Digest -> string, U: string -> Digest, undef: Digest,
                              h: History, b: nat, i: nat, blks: seq<string>, value: string, proof: seq<Option<Digest>>,
                              pos: seq<nat>, tid: nat, block: nat, index: nat, docs: seq<string>)
    requires IsHistory(H, HS, T, U, h) && EntryHolds(H, HS, T, h, b, i) && |blks| + b == |h.texts| && blks != []
    requires Chained(HS, T, blks, LastHash(HS, T, h.texts))
    requires |proof| == Height(|h.blocks[b]|) && IsSides(i, |proof|, pos)
    requires T(Climb(H, LedgerTree.VerifyStep(undef), HS(value), proof, pos, |proof|)) == Field(blks[0], 1)
    requires IsEntry(H, HS, T, value, tid, block, index, docs)
    ensures || (tid == h.ids[b][i] && docs == h.docs[tid])
            || TreesCollide(H, HS, docs, h.docs[h.ids[b][i]])
            || TextsCollide(HS, value, h.blocks[b][i])
            || (exists k :: 0 <= k < |blks| && TextsCollide(HS, blks[k], h.texts[b + k]))
            || exists j :: CollidesAt(H, LedgerTree.VerifyStep(undef), LeafHashes(HS, h.blocks[b]), i, HS(value), proof,
                                      pos, j)
  {
    AcceptedRootBinds(H, HS, T, U, h, b, blks);
    if Field(blks[0], 1) == T(Root(H, LeafHashes(HS, h.blocks[b]))) {
      var top := Climb(H, LedgerTree.VerifyStep(undef), HS(value), proof, pos, |proof|);
      assert U(T(top)) == U(T(Root(H, LeafHashes(HS, h.blocks[b]))));
      AcceptedEntryBinds(H, HS, undef, value, h.blocks[b], i, proof, pos);
      if value == h.blocks[b][i] {
        EntryBindsDocs(H, HS, T, U, value, tid, block, index, docs, h.ids[b][i], b, i, h.docs[h.ids[b][i]]);
      }
    }
  }

  /** An accepted chain gives the honest root, or two records collide. */
  lemma AcceptedRootBinds(H: HashFn, HS: string -> Digest, T: Digest -> string, U: string -> Digest, h: History, b: nat,
                          blks: seq<string>)
    requires IsHistory(H, HS, T, U, h) && b < |h.blocks| && |blks| + b == |h.texts| && blks != []
    requires Chained(HS, T, blks, LastHash(HS, T, h.texts))
    ensures h.blocks[b] != []
    ensures || Field(blks[0], 1) == T(Root(H, LeafHashes(HS, h.blocks[b])))
            || exists k :: 0 <= k < |blks| && TextsCollide(HS, blks[k], h.texts[b + k])
  {
    ChainIsLinked(H, HS, T, U, h.blocks, h.texts);
    HonestChain(HS, T, h.texts, b, |h.texts|);
    assert h.texts[..|h.texts|] == h.texts;
    var honest := h.texts[b..];
    assert honest == h.texts[b..|h.texts|];
    AcceptedChainBinds(HS, T, U, blks, honest, LastHash(HS, T, h.texts));
    ChainFields(H, HS, T, U, h.blocks, h.texts, b);
    if blks != honest {
      var k :| 0 <= k < |blks| && TextsCollide(HS, blks[k], honest[k]);
      assert TextsCollide(HS, blks[k], h.texts[b + k]);
    }
  }

  /** Two records at one place, or the trees of one block or of one transaction, collide. */
  ghost predicate LedgersCollide(H: HashFn, HS: string -> Digest, h: History, h': History) {
    || (exists b :: 0 <= b < |h.texts| && b < |h'.texts| && TextsCollide(HS, h.texts[b], h'.texts[b]))
    || (exists b :: 0 <= b < |h.blocks| && b < |h'.blocks| && TreesCollide(H, HS, h.blocks[b], h'.blocks[b]))
    || (exists t :: t in h.docs && t in h'.docs && TreesCollide(H, HS, h.docs[t], h'.docs[t]))
  }

  /** The digest record binds the whole ledger: two ledgers with the same digest record have the same transactions in
      the same places with the same documents, or two texts or two nodes collide. */
  lemma DigestBindsLedger(H: HashFn, HS: string -> Digest, T: Digest -> string, U: string -> Digest, h: History,
                          h': History)
    requires IsHistory(H, HS, T, U, h) && IsHistory(H, HS, T, U, h')
    requires DigestText(HS, T, h.texts) == DigestText(HS, T, h'.texts)
    ensures (h.ids == h'.ids && h.docs == h'.docs) || LedgersCollide(H, HS, h, h')
  {
    if !LedgersCollide(H, HS, h, h') {
      SameTexts(H, HS, T, U, h, h');
      SameBlocks(H, HS, T, U, h, h');
      SameIds(H, HS, T, U, h, h');
    }
  }

  lemma SameTexts(H: HashFn, HS: string -> Digest, T: Digest -> string, U: string -> Digest, h: History, h': History)
    requires IsHistory(H, HS, T, U, h) && IsHistory(H, HS, T, U, h')
    requires DigestText(HS, T, h.texts) == DigestText(HS, T, h'.texts) && !LedgersCollide(H, HS, h, h')
    ensures h.texts == h'.texts
  {
    var s, t := h.texts, h'.texts;
    SameDigest(HS, T, s, t);
    if s != [] {
      ChainIsLinked(H, HS, T, U, h.blocks, s);
      ChainIsLinked(H, HS, T, U, h'.blocks, t);
      HonestChain(HS, T, s, 0, |s|);
      HonestChain(HS, T, t, 0, |t|);
      assert s[0..|s|] == s && s[..|s|] == s && t[0..|t|] == t && t[..|t|] == t;
      AcceptedChainBinds(HS, T, U, s, t, LastHash(HS, T, t));
    }
  }

  lemma SameDigest(HS: string -> Digest, T: Digest -> string, s: seq<string>, t: seq<string>)
    requires DigestText(HS, T, s) == DigestText(HS, T, t) && forall d :: BAR !in T(d)
    ensures |s| == |t| && LastHash(HS, T, s) == LastHash(HS, T, t)
  {
    var digest := DigestText(HS, T, s);
    if s != [] && t != [] {
      SplitNumbered(LastHash(HS, T, s), |s| - 1);
      SplitNumbered(LastHash(HS, T, t), |t| - 1);
      assert Split(digest)[0] == LastHash(HS, T, s) && Split(digest)[0] == LastHash(HS, T, t);
      assert Split(digest)[1] == Dec(|s| - 1) && Split(digest)[1] == Dec(|t| - 1);
      DecDetermines(|s| - 1, |t| - 1);
    }
  }

  lemma SplitNumbered(hash: string, n: nat)
    requires BAR !in hash
    ensures Split(NumberedHash(hash, n)) == [hash, Dec(n)]
  {
    SplitLast(Dec(n));
    SplitField(hash, Dec(n));
  }

  lemma SameBlocks(H: HashFn, HS: string -> Digest, T: Digest -> string, U: string -> Digest, h: History, h': History)
    requires IsHistory(H, HS, T, U, h) && IsHistory(H, HS, T, U, h')
    requires h.texts == h'.texts && !LedgersCollide(H, HS, h, h')
    ensures h.blocks == h'.blocks
  {
    forall b | 0 <= b < |h.blocks| ensures h.blocks[b] == h'.blocks[b] {
      ChainFields(H, HS, T, U, h.blocks, h.texts, b);
      ChainFields(H, HS, T, U, h'.blocks, h'.texts, b);
      var root := Field(h.texts[b], 1);
      assert U(root) == Root(H, LeafHashes(HS, h.blocks[b])) && U(root) == Root(H, LeafHashes(HS, h'.blocks[b]));
      DecDetermines(Height(|h.blocks[b]|), Height(|h'.blocks[b]|));
      SameTreeSameTexts(H, HS, h.blocks[b], h'.blocks[b]);
    }
  }

  lemma SameIds(H: HashFn, HS: string -> Digest, T: Digest -> string, U: string -> Digest, h: History, h': History)
    requires IsHistory(H, HS, T, U, h) && IsHistory(H, HS, T, U, h')
    requires h.blocks == h'.blocks && !LedgersCollide(H, HS, h, h')
    ensures h.ids == h'.ids && h.docs == h'.docs
  {
    forall b, i | 0 <= b < |h.ids| && 0 <= i < |h.ids[b]| ensures SameAt(h, h', b, i) {
      assert EntryHolds(H, HS, T, h, b, i) && EntryHolds(H, HS, T, h', b, i);
      EntryBindsDocs(H, HS, T, U, h.blocks[b][i], h.ids[b][i], b, i, h.docs[h.ids[b][i]], h'.ids[b][i], b, i,
                     h'.docs[h'.ids[b][i]]);
    }
    SameEverywhere(h, h');
  }

  ghost predicate SameAt(h: History, h': History, b: nat, i: nat) {
    && b < |h.ids| && b < |h'.ids| && i < |h.ids[b]| && i < |h'.ids[b]| && h.ids[b][i] == h'.ids[b][i]
    && h.ids[b][i] in h.docs && h.ids[b][i] in h'.docs && h.docs[h.ids[b][i]] == h'.docs[h.ids[b][i]]
  }

  lemma SameEverywhere(h: History, h': History)
    requires |h.ids| == |h'.ids| && forall b :: 0 <= b < |h.ids| ==> |h.ids[b]| == |h'.ids[b]|
    requires forall b, i :: 0 <= b < |h.ids| && 0 <= i < |h.ids[b]| ==> SameAt(h, h', b, i)
    requires forall t :: t in h.docs ==> exists b, i :: IdAt(h, b, i, t)
    requires forall t :: t in h'.docs ==> exists b, i :: IdAt(h', b, i, t)
    ensures h.ids == h'.ids && h.docs == h'.docs
  {
    forall b | 0 <= b < |h.ids| ensures h.ids[b] == h'.ids[b] {
      forall i | 0 <= i < |h.ids[b]| ensures h.ids[b][i] == h'.ids[b][i] { assert SameAt(h, h', b, i); }
    }
    forall t | t in h.docs ensures t in h'.docs && h.docs[t] == h'.docs[t] {
      var b: nat, i: nat :| IdAt(h, b, i, t);
      assert SameAt(h, h', b, i);
    }
    forall t | t in h'.docs ensures t in h.docs {
      var b: nat, i: nat :| IdAt(h', b, i, t);
      assert SameAt(h, h', b, i);
    }
    assert h.docs.Keys == h'.docs.Keys;
  }

  /** The loop of `getBlockProof`. */
  method CollectBlocks(ghost HS: string -> Digest, ghost T: Digest -> string, blks: map<nat, string>,
                       ghost digest: string, block: nat, tip: nat, ghost texts: seq<string>)
    returns (proof: seq<string>, level: nat)
    requires RecordsStored(HS, T, blks, digest, texts) && block <= tip < |texts|
    ensures proof == texts[block..tip + 1] && level == Num(Field(texts[block], 2))
  {
    proof, level := [], 0;
    for i := block to tip + 1
      invariant proof == texts[block..i] && (i > block ==> level == Num(Field(texts[block], 2)))
    {
      proof := proof + [blks[i]];
      if i == block {
        level := Num(Field(blks[i], 2));
      }
    }
  }
}
