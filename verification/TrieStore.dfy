/** The trie as it is stored (ledger/ledgerdb/mpt/trie.cc, mpt_node.cc, mpt_delta.h): chunks named by their
    hash in a database, with the new chunks of a batch in an overlay until they are committed. */
module TrieStore {
  import opened Codec
  import opened Options
  import opened Hashing
  import opened Nibbles
  import opened TrieTree

  /** A stored node. A short node holds its child's value or hash; a full node the hashes of its first sixteen
      children, and its last child itself. Short and full nodes carry their element count. */
  datatype Chunk =
    | NilC
    | ValueC(val: Bytes)
    | HashC(hash: Digest)
    | ShortC(count: nat, key: Path, child: Chunk)
    | FullC(count: nat, kids: seq<Chunk>)

  type ChunkHash = Chunk -> Digest
  type Store = map<Digest, Chunk>

  const NONE: Store := map[]

  ghost function ChunkOf(H: ChunkHash, t: Tree): Chunk
    decreases t
  {
    match t
    case Nil => NilC
    case Value(v) => ValueC(v)
    case Short(k, c) => ShortC(Count(c), k, if c.Value? then ValueC(c.val) else HashC(H(ChunkOf(H, c))))
    case Full(kids) =>
      FullC(Count(t), seq(|kids|, i requires 0 <= i < |kids| =>
        if i < 16 then HashC(H(ChunkOf(H, kids[i]))) else ChunkOf(H, kids[i])))
  }

  /** No two chunks of the universe have the same hash; it contains the empty node's chunk. */
  ghost predicate Apart(H: ChunkHash, universe: set<Chunk>) {
    NilC in universe && forall a, b :: a in universe && b in universe && H(a) == H(b) ==> a == b
  }

  /** The store files chunks of the universe under their own hashes, and never the empty node. */
  ghost predicate Sound(H: ChunkHash, universe: set<Chunk>, m: Store) {
    forall h :: h in m ==> H(m[h]) == h && m[h] in universe && m[h] != NilC
  }

  ghost predicate NodesIn(H: ChunkHash, universe: set<Chunk>, t: Tree) {
    && ChunkOf(H, t) in universe
    && (t.Short? ==> NodesIn(H, universe, t.child))
    && (t.Full? ==> forall i :: 0 <= i < |t.kids| ==> NodesIn(H, universe, t.kids[i]))
  }

  /** A child that is stored: in the overlay, or in the database with everything below it. */
  ghost predicate KidStored(H: ChunkHash, db: Store, delta: Store, s: Tree)
    decreases s, 1
  {
    s.Nil? || s.Value? ||
    var h := H(ChunkOf(H, s));
    if h in delta then delta[h] == ChunkOf(H, s) && Below(H, db, delta, s)
    else h in db && db[h] == ChunkOf(H, s) && Below(H, db, NONE, s)
  }

  /** Every node below `t` is stored. */
  ghost predicate Below(H: ChunkHash, db: Store, delta: Store, t: Tree)
    decreases t, 0
  {
    match t
    case Nil => true
    case Value(_) => true
    case Short(_, c) => KidStored(H, db, delta, c)
    case Full(kids) => forall i :: 0 <= i < |kids| ==> KidStored(H, db, delta, kids[i])
  }

  /** Every node reachable from the root is in the database. */
  ghost predicate Saved(H: ChunkHash, db: Store, t: Tree) { KidStored(H, db, NONE, t) }

  /** A record that is present keeps its contents. */
  ghost predicate Grows(m: Store, m': Store) {
    forall h :: h in m ==> h in m' && m'[h] == m[h]
  }

  lemma {:induction false} BelowMore(H: ChunkHash, universe: set<Chunk>, db: Store, delta: Store, delta': Store,
                                     t: Tree)
    requires Apart(H, universe) && Sound(H, universe, db) && Sound(H, universe, delta')
    requires Grows(delta, delta') && Below(H, db, delta, t)
    ensures Below(H, db, delta', t)
    decreases t, 0
  {
    match t
    case Nil =>
    case Value(_) =>
    case Short(_, c) => KidMore(H, universe, db, delta, delta', c);
    case Full(kids) =>
      forall i | 0 <= i < |kids| ensures KidStored(H, db, delta', kids[i]) {
        KidMore(H, universe, db, delta, delta', kids[i]);
      }
  }

  /** A growing overlay does not hide what is stored. */
  lemma {:induction false} KidMore(H: ChunkHash, universe: set<Chunk>, db: Store, delta: Store, delta': Store, s: Tree)
    requires Apart(H, universe) && Sound(H, universe, db) && Sound(H, universe, delta')
    requires Grows(delta, delta') && KidStored(H, db, delta, s)
    ensures KidStored(H, db, delta', s)
    decreases s, 1
  {
    if !s.Nil? && !s.Value? {
      var h := H(ChunkOf(H, s));
      if h in delta {
        BelowMore(H, universe, db, delta, delta', s);
      } else if h in delta' {
        assert H(db[h]) == H(delta'[h]);
        BelowMore(H, universe, db, NONE, delta', s);
      }
    }
  }

  lemma {:induction false} BelowInMore(H: ChunkHash, db: Store, db': Store, delta: Store, t: Tree)
    requires Grows(db, db') && Below(H, db, delta, t)
    ensures Below(H, db', delta, t)
    decreases t, 0
  {
    match t
    case Nil =>
    case Value(_) =>
    case Short(_, c) => KidInMore(H, db, db', delta, c);
    case Full(kids) =>
      forall i | 0 <= i < |kids| ensures KidStored(H, db', delta, kids[i]) {
        KidInMore(H, db, db', delta, kids[i]);
      }
  }

  /** What is saved stays saved while the database grows: older roots keep their trees. */
  lemma {:induction false} KidInMore(H: ChunkHash, db: Store, db': Store, delta: Store, s: Tree)
    requires Grows(db, db') && KidStored(H, db, delta, s)
    ensures KidStored(H, db', delta, s)
    decreases s, 1
  {
    if !s.Nil? && !s.Value? {
      if H(ChunkOf(H, s)) in delta { BelowInMore(H, db, db', delta, s); } else { BelowInMore(H, db, db', NONE, s); }
    }
  }

  /** `GetHashNodeChild` of a child that is stored. */
  function Fetch(db: Store, delta: Store, h: Digest): Chunk {
    if h in delta then delta[h] else if h in db then db[h] else NilC
  }

  lemma FetchKid(H: ChunkHash, universe: set<Chunk>, db: Store, delta: Store, s: Tree)
    requires Apart(H, universe) && Sound(H, universe, db) && Sound(H, universe, delta)
    requires KidStored(H, db, delta, s) && !s.Value?
    ensures Fetch(db, delta, H(ChunkOf(H, s))) == ChunkOf(H, s) && Below(H, db, delta, s)
  {
    if s.Nil? {
      NilIsNowhere(H, universe, db);
      NilIsNowhere(H, universe, delta);
    } else if H(ChunkOf(H, s)) !in delta {
      BelowMore(H, universe, db, NONE, delta, s);
    }
  }

  lemma NilIsNowhere(H: ChunkHash, universe: set<Chunk>, m: Store)
    requires Apart(H, universe) && Sound(H, universe, m)
    ensures H(NilC) !in m
  {
  }

  /** `CreateChunk` followed by `GetChunk`. */
  method Create(H: ChunkHash, delta: Store, c: Chunk, ghost universe: set<Chunk>) returns (delta': Store, c': Chunk)
    requires Apart(H, universe) && Sound(H, universe, delta) && c in universe && c != NilC
    ensures c' == c && delta' == delta[H(c) := c] && Sound(H, universe, delta') && Grows(delta, delta')
  {
    var h := H(c);
    delta' := if h in delta then delta else delta[h := c];
    c' := delta'[h];
  }

  // ---- Encoding nodes.

  function CountOf(c: Chunk): nat {
    match c
    case ValueC(_) => 1
    case ShortC(count, _, _) => count
    case FullC(count, _) => count
    case _ => 0
  }

  lemma CountOfChunk(H: ChunkHash, t: Tree)
    ensures CountOf(ChunkOf(H, t)) == Count(t)
  {
  }

  /** `MPTShortNode::Encode`. */
  function EncodeShort(H: ChunkHash, key: Path, node: Chunk): Chunk {
    ShortC(CountOf(node), key, if node.ValueC? then node else HashC(H(node)))
  }

  lemma EncodeShortIs(H: ChunkHash, key: Path, t: Tree)
    ensures EncodeShort(H, key, ChunkOf(H, t)) == ChunkOf(H, Short(key, t))
  {
    CountOfChunk(H, t);
  }

  /** `MPTFullNode::Encode`: sums the counts and hashes the first sixteen children. */
  method EncodeFull(H: ChunkHash, nodes: seq<Chunk>, ghost kids: seq<Tree>) returns (c: Chunk)
    requires |nodes| == |kids| == WIDTH && forall i :: 0 <= i < WIDTH ==> nodes[i] == ChunkOf(H, kids[i])
    ensures c == ChunkOf(H, Full(kids))
  {
    var count := 0;
    for i := 0 to WIDTH
      invariant count == CountKids(Full(kids), i)
    {
      CountOfChunk(H, kids[i]);
      count := count + CountOf(nodes[i]);
    }
    var refs: seq<Chunk> := [];
    for i := 0 to 16
      invariant |refs| == i && forall j :: 0 <= j < i ==> refs[j] == HashC(H(ChunkOf(H, kids[j])))
    {
      refs := refs + [HashC(H(nodes[i]))];
    }
    c := FullC(count, refs + [nodes[16]]);
  }

  /** `setChildAtIndex`, on the decoded node. */
  function SetChild(H: ChunkHash, c: Chunk, index: Nibble, child: Chunk, oldChild: Chunk): Chunk
    requires c.FullC? && |c.kids| == WIDTH && CountOf(oldChild) <= c.count
  {
    FullC(c.count + CountOf(child) - CountOf(oldChild),
          c.kids[index := if index == END then child else HashC(H(child))])
  }

  lemma {:induction false} CountPart(t: Tree, i: nat, n: nat)
    requires t.Full? && i < n <= |t.kids|
    ensures Count(t.kids[i]) <= CountKids(t, n)
  {
    if i < n - 1 { CountPart(t, i, n - 1); }
  }

  /** Splicing a child in is encoding the changed list of children. */
  lemma SetChildIs(H: ChunkHash, kids: seq<Tree>, i: Nibble, kid: Tree)
    requires |kids| == WIDTH
    ensures CountOf(ChunkOf(H, kids[i])) <= ChunkOf(H, Full(kids)).count
    ensures SetChild(H, ChunkOf(H, Full(kids)), i, ChunkOf(H, kid), ChunkOf(H, kids[i]))
              == ChunkOf(H, Full(kids[i := kid]))
  {
    CountOfChunk(H, kids[i]);
    CountOfChunk(H, kid);
    CountPart(Full(kids), i, WIDTH);
    CountReplaced(Full(kids), i, kid, WIDTH);
  }

  // ---- Insertion.

  /** What an insertion returns: the chunk of the new tree, with every node below it stored, and itself in the
      overlay unless it is a value. */
  ghost predicate Inserted(H: ChunkHash, universe: set<Chunk>, db: Store, delta: Store, delta': Store, t: Tree,
                           c: Chunk) {
    && Sound(H, universe, delta') && Grows(delta, delta')
    && c == ChunkOf(H, t) && Below(H, db, delta', t)
    && (t.Value? || (H(c) in delta' && delta'[H(c)] == c))
  }

  lemma InsertedKid(H: ChunkHash, universe: set<Chunk>, db: Store, delta: Store, delta': Store, t: Tree, c: Chunk)
    requires Inserted(H, universe, db, delta, delta', t, c)
    ensures KidStored(H, db, delta', t)
  {
  }

  /** A node whose children are stored, once it is itself put in the overlay. */
  lemma CreatedNode(H: ChunkHash, universe: set<Chunk>, db: Store, delta: Store, t: Tree)
    requires Apart(H, universe) && Sound(H, universe, db) && Sound(H, universe, delta)
    requires ChunkOf(H, t) in universe && (t.Short? || t.Full?) && Below(H, db, delta, t)
    ensures var delta' := delta[H(ChunkOf(H, t)) := ChunkOf(H, t)];
            Grows(delta, delta') && Inserted(H, universe, db, delta, delta', t, ChunkOf(H, t))
  {
    var h := H(ChunkOf(H, t));
    var delta' := delta[h := ChunkOf(H, t)];
    assert h in delta ==> H(delta[h]) == h;
    BelowMore(H, universe, db, delta, delta', t);
  }

  /** `Insert` into the empty node: `chunk` itself, or a short node that leads to it. */
  method InsertNil(H: ChunkHash, ghost db: Store, delta: Store, key: Path, chunk: Chunk, ghost t: Tree,
                   ghost universe: set<Chunk>)
    returns (c: Chunk, delta': Store)
    requires Apart(H, universe) && Sound(H, universe, db) && Sound(H, universe, delta)
    requires chunk == ChunkOf(H, t) && (t.Value? || t.Full?) && KidStored(H, db, delta, t)
               && NodesIn(H, universe, Attach(key, t))
    ensures Sound(H, universe, delta') && Grows(delta, delta')
    ensures c == ChunkOf(H, Attach(key, t)) && KidStored(H, db, delta', Attach(key, t))
    ensures key != [] ==> H(c) in delta' && delta'[H(c)] == c
  {
    if |key| == 0 {
      return chunk, delta;
    }
    EncodeShortIs(H, key, t);
    CreatedNode(H, universe, db, delta, Short(key, t));
    delta', c := Create(H, delta, EncodeShort(H, key, chunk), universe);
  }

  /** `Insert`: `node` is the stored form of `t`. */
  method InsertNode(H: ChunkHash, db: Store, delta: Store, node: Chunk, key: Path, value: Bytes, ghost t: Tree,
                    ghost universe: set<Chunk>)
    returns (c: Chunk, delta': Store)
    requires Apart(H, universe) && Sound(H, universe, db) && Sound(H, universe, delta)
    requires Enters(t, key) && NodesIn(H, universe, Insert(t, key, value))
    requires key != [] ==> node == ChunkOf(H, t) && Below(H, db, delta, t)
    ensures Inserted(H, universe, db, delta, delta', Insert(t, key, value), c)
    decreases t
  {
    if |key| == 0 {
      return ValueC(value), delta;
    }
    match node
    case FullC(_, _) =>
      c, delta' := InsertFull(H, db, delta, node, key, value, t, universe);
    case ShortC(_, _, _) =>
      var m := ComputePrefixLen(key, node.key);
      if m == |node.key| {
        c, delta' := InsertBelow(H, db, delta, node, key, value, t, universe);
      } else {
        c, delta' := InsertFork(H, db, delta, node, key, m, value, t, universe);
      }
    case NilC =>
      c, delta' := InsertNil(H, db, delta, key, ValueC(value), Value(value), universe);
      assert Insert(t, key, value) == Attach(key, Value(value));
  }

  method InsertFull(H: ChunkHash, db: Store, delta: Store, node: Chunk, key: Path, value: Bytes, ghost t: Tree,
                    ghost universe: set<Chunk>)
    returns (c: Chunk, delta': Store)
    requires Apart(H, universe) && Sound(H, universe, db) && Sound(H, universe, delta)
    requires t.Full? && Proper(t) && IsKey(key) && NodesIn(H, universe, Insert(t, key, value))
    requires node == ChunkOf(H, t) && Below(H, db, delta, t)
    ensures Inserted(H, universe, db, delta, delta', Insert(t, key, value), c)
    decreases t, 0
  {
    var index := key[0];
    ghost var kid := t.kids[index];
    var child := node.kids[index];
    if index != END {
      FetchKid(H, universe, db, delta, kid);
      child := Fetch(db, delta, child.hash);
    }
    ghost var kid' := Insert(kid, key[1..], value);
    assert NodesIn(H, universe, kid') by { assert Insert(t, key, value).kids[index] == kid'; }
    var newChild, delta1 := InsertNode(H, db, delta, child, key[1..], value, kid, universe);
    SetChildIs(H, t.kids, index, kid');
    FullStored(H, universe, db, delta, delta1, t, index, kid', newChild);
    CreatedNode(H, universe, db, delta1, Insert(t, key, value));
    delta', c := Create(H, delta1, SetChild(H, node, index, newChild, child), universe);
  }

  lemma FullStored(H: ChunkHash, universe: set<Chunk>, db: Store, delta: Store, delta': Store, t: Tree, i: Nibble,
                   kid: Tree, c: Chunk)
    requires Apart(H, universe) && Sound(H, universe, db) && t.Full? && |t.kids| == WIDTH && Below(H, db, delta, t)
    requires Inserted(H, universe, db, delta, delta', kid, c)
    ensures Below(H, db, delta', Full(t.kids[i := kid]))
  {
    BelowMore(H, universe, db, delta, delta', t);
    InsertedKid(H, universe, db, delta, delta', kid, c);
  }

  /** The whole key of the short node matches: only its child changes. */
  method InsertBelow(H: ChunkHash, db: Store, delta: Store, node: Chunk, key: Path, value: Bytes, ghost t: Tree,
                     ghost universe: set<Chunk>)
    returns (c: Chunk, delta': Store)
    requires Apart(H, universe) && Sound(H, universe, db) && Sound(H, universe, delta)
    requires t.Short? && Proper(t) && IsKey(key) && NodesIn(H, universe, Insert(t, key, value))
    requires node == ChunkOf(H, t) && Below(H, db, delta, t) && PrefixLen(key, t.key) == |t.key|
    ensures Inserted(H, universe, db, delta, delta', Insert(t, key, value), c)
    decreases t, 0
  {
    EntersBelow(t, key);
    var rest := key[|node.key|..];
    var child := node.child;
    if |rest| > 0 {
      FetchKid(H, universe, db, delta, t.child);
      child := Fetch(db, delta, child.hash);
    }
    var newChild, delta1 := InsertNode(H, db, delta, child, rest, value, t.child, universe);
    ghost var child' := Insert(t.child, rest, value);
    InsertedKid(H, universe, db, delta, delta1, child', newChild);
    EncodeShortIs(H, t.key, child');
    CreatedNode(H, universe, db, delta1, Short(t.key, child'));
    delta', c := Create(H, delta1, EncodeShort(H, node.key, newChild), universe);
  }

  const NILS: seq<Chunk> := [NilC, NilC, NilC, NilC, NilC, NilC, NilC, NilC, NilC, NilC, NilC, NilC, NilC, NilC, NilC,
      NilC, NilC]

  /** The keys part inside the short node: a full node takes both, below what they share. */
  method InsertFork(H: ChunkHash, db: Store, delta: Store, node: Chunk, key: Path, m: nat, value: Bytes, ghost t: Tree,
                    ghost universe: set<Chunk>)
    returns (c: Chunk, delta': Store)
    requires Apart(H, universe) && Sound(H, universe, db) && Sound(H, universe, delta)
    requires t.Short? && Proper(t) && IsKey(key) && NodesIn(H, universe, Insert(t, key, value))
    requires node == ChunkOf(H, t) && Below(H, db, delta, t) && m == PrefixLen(key, t.key) && m < |t.key|
    ensures Inserted(H, universe, db, delta, delta', Insert(t, key, value), c)
    decreases t, 0
  {
    KeysPart(t.key, key, m);
    ghost var branch := Branch(t.key[m..], t.child, key[m..], Value(value));
    ForkNodes(H, universe, t, key, m, value);
    var branchNode, delta1 := Fork(H, db, delta, node, key, m, value, t, universe);
    CreatedNode(H, universe, db, delta1, branch);
    if m == 0 {
      delta', c := Create(H, delta1, branchNode, universe);
    } else {
      var delta2, _ := Create(H, delta1, branchNode, universe);
      InsertedKid(H, universe, db, delta1, delta2, branch, branchNode);
      EncodeShortIs(H, key[..m], branch);
      CreatedNode(H, universe, db, delta2, Short(key[..m], branch));
      delta', c := Create(H, delta2, EncodeShort(H, key[..m], branchNode), universe);
    }
  }

  lemma ForkNodes(H: ChunkHash, universe: set<Chunk>, t: Tree, key: Path, m: nat, v: Bytes)
    requires t.Short? && Proper(t) && IsKey(key) && m == PrefixLen(key, t.key) && m < |t.key| && m < |key|
               && key[m] != t.key[m]
    requires NodesIn(H, universe, Insert(t, key, v))
    ensures var branch := Branch(t.key[m..], t.child, key[m..], Value(v));
            && Insert(t, key, v) == Attach(key[..m], branch) && NodesIn(H, universe, branch)
            && NodesIn(H, universe, Attach(t.key[m + 1..], t.child))
                && NodesIn(H, universe, Attach(key[m + 1..], Value(v)))
  {
    var branch := Branch(t.key[m..], t.child, key[m..], Value(v));
    assert Insert(t, key, v) == Attach(key[..m], branch);
    assert NodesIn(H, universe, branch);
    assert branch.kids[t.key[m]] == Attach(t.key[m..][1..], t.child) && t.key[m..][1..] == t.key[m + 1..];
    assert branch.kids[key[m]] == Attach(key[m..][1..], Value(v)) && key[m..][1..] == key[m + 1..];
  }

  /** The full node over the two children. */
  method Fork(H: ChunkHash, db: Store, delta: Store, node: Chunk, key: Path, m: nat, value: Bytes, ghost t: Tree,
              ghost universe: set<Chunk>)
    returns (c: Chunk, delta': Store)
    requires Apart(H, universe) && Sound(H, universe, db) && Sound(H, universe, delta)
    requires t.Short? && Proper(t) && IsKey(key) && m < |t.key| && m < |key| && key[m] != t.key[m]
    requires node == ChunkOf(H, t) && Below(H, db, delta, t)
    requires NodesIn(H, universe, Attach(t.key[m + 1..], t.child))
               && NodesIn(H, universe, Attach(key[m + 1..], Value(value)))
    ensures Sound(H, universe, delta') && Grows(delta, delta')
    ensures var branch := Branch(t.key[m..], t.child, key[m..], Value(value));
            c == ChunkOf(H, branch) && Below(H, db, delta', branch)
  {
    var children := NILS;
    var indexO, indexU := node.key[m], key[m];
    var child := node.child;
    if child.HashC? {
      FetchKid(H, universe, db, delta, t.child);
      child := Fetch(db, delta, child.hash);
    }
    var childO, delta1 := InsertNil(H, db, delta, node.key[m + 1..], child, t.child, universe);
    children := children[indexO := childO];
    var childU, delta2 := InsertNil(H, db, delta1, key[m + 1..], ValueC(value), Value(value), universe);
    children := children[indexU := childU];
    delta' := delta2;
    ghost var o, u := Attach(t.key[m + 1..], t.child), Attach(key[m + 1..], Value(value));
    KidMore(H, universe, db, delta1, delta2, o);
    BranchKids(t.key, t.child, key, m, Value(value));
    ghost var kids := EMPTY[indexO := o][indexU := u];
    TwoBelow(H, db, delta2, indexO, o, indexU, u);
    c := EncodeFull(H, children, kids);
  }

  lemma BranchKids(k: Path, c: Tree, key: Path, m: nat, u: Tree)
    requires m < |k| && m < |key|
    ensures Branch(k[m..], c, key[m..], u)
         == Full(EMPTY[k[m] := Attach(k[m + 1..], c)][key[m] := Attach(key[m + 1..], u)])
  {
    assert k[m..][1..] == k[m + 1..] && key[m..][1..] == key[m + 1..];
  }

  lemma TwoBelow(H: ChunkHash, db: Store, delta: Store, i: Nibble, o: Tree, j: Nibble, u: Tree)
    requires KidStored(H, db, delta, o) && KidStored(H, db, delta, u)
    ensures Below(H, db, delta, Full(EMPTY[i := o][j := u]))
  {
  }

  // ---- Commit.

  /** `MPTDelta::Commit`: writes the overlay's nodes that are reachable from `node`, children first. */
  method Commit(H: ChunkHash, db: Store, delta: Store, node: Chunk, ghost t: Tree, ghost universe: set<Chunk>)
    returns (db': Store)
    requires Apart(H, universe) && Sound(H, universe, db) && Sound(H, universe, delta)
    requires node == ChunkOf(H, t) && (t.Nil? || t.Value? || Proper(t)) && Below(H, db, delta, t)
    ensures Sound(H, universe, db') && Grows(db, db') && Below(H, db', NONE, t)
    ensures Proper(t) && H(node) in delta && delta[H(node)] == node ==> H(node) in db' && db'[H(node)] == node
    decreases t, 1
  {
    match node
    case FullC(_, _) =>
      db' := CommitKids(H, db, delta, node, t, universe);
      db' := CommitOwn(H, db', delta, node, t, universe);
    case ShortC(_, _, child) =>
      db' := db;
      if child.HashC? {
        db' := CommitRef(H, db, delta, child.hash, t.child, universe);
      }
      db' := CommitOwn(H, db', delta, node, t, universe);
    case _ =>
      db' := db;
  }

  method CommitOwn(H: ChunkHash, db: Store, delta: Store, node: Chunk, ghost t: Tree, ghost universe: set<Chunk>)
    returns (db': Store)
    requires Apart(H, universe) && Sound(H, universe, db) && Sound(H, universe, delta) && Below(H, db, NONE, t)
    requires node == ChunkOf(H, t)
    ensures Sound(H, universe, db') && Grows(db, db') && Below(H, db', NONE, t)
    ensures H(node) in delta && delta[H(node)] == node ==> H(node) in db' && db'[H(node)] == node
  {
    var hash := H(node);
    db' := db;
    if hash in delta {
      NilIsNowhere(H, universe, delta);
      if hash != H(NilC) {
        assert hash in db ==> H(db[hash]) == H(delta[hash]);
        db' := db[hash := delta[hash]];
        BelowInMore(H, db, db', NONE, t);
      }
    }
  }

  method CommitKids(H: ChunkHash, db: Store, delta: Store, node: Chunk, ghost t: Tree, ghost universe: set<Chunk>)
    returns (db': Store)
    requires Apart(H, universe) && Sound(H, universe, db) && Sound(H, universe, delta)
    requires t.Full? && Proper(t) && node == ChunkOf(H, t) && Below(H, db, delta, t)
    ensures Sound(H, universe, db') && Grows(db, db') && Below(H, db', NONE, t)
    decreases t, 0
  {
    db' := db;
    for i := 0 to WIDTH
      invariant Sound(H, universe, db') && Grows(db, db')
      invariant forall j :: 0 <= j < i ==> KidStored(H, db', NONE, t.kids[j])
    {
      var child := node.kids[i];
      ghost var before := db';
      KidInMore(H, db, db', delta, t.kids[i]);
      if child.HashC? {
        RefIsNil(H, universe, db', delta, t.kids[i]);
        if child.hash != H(NilC) {
          db' := CommitRef(H, db', delta, child.hash, t.kids[i], universe);
        }
      }
      forall j | 0 <= j < i ensures KidStored(H, db', NONE, t.kids[j]) { KidInMore(H, before, db', NONE, t.kids[j]); }
    }
  }

  lemma RefIsNil(H: ChunkHash, universe: set<Chunk>, db: Store, delta: Store, s: Tree)
    requires Apart(H, universe) && Sound(H, universe, db) && Sound(H, universe, delta) && KidStored(H, db, delta, s)
               && !s.Value?
    ensures H(ChunkOf(H, s)) == H(NilC) <==> s.Nil?
  {
    NilIsNowhere(H, universe, db);
    NilIsNowhere(H, universe, delta);
  }

  method CommitRef(H: ChunkHash, db: Store, delta: Store, hash: Digest, ghost s: Tree, ghost universe: set<Chunk>)
    returns (db': Store)
    requires Apart(H, universe) && Sound(H, universe, db) && Sound(H, universe, delta)
    requires Proper(s) && hash == H(ChunkOf(H, s)) && KidStored(H, db, delta, s)
    ensures Sound(H, universe, db') && Grows(db, db') && KidStored(H, db', NONE, s)
    decreases s, 2
  {
    db' := db;
    if hash in delta {
      db' := Commit(H, db, delta, delta[hash], s, universe);
    }
  }

  // ---- Reading.

  function Text(v: Option<Bytes>): Bytes { if v.Some? then v.value else [] }

  /** `TryGet`: a missing key reads as the empty string. */
  method TryGet(H: ChunkHash, db: Store, node: Chunk, key: Path, pos: nat, ghost t: Tree) returns (v: Bytes)
    requires node == ChunkOf(H, t) && Below(H, db, NONE, t) && H(NilC) !in db
    requires pos <= |key| && Enters(t, key[pos..]) && (pos == |key| ==> t.Nil? || t.Value?)
    ensures v == Text(Lookup(t, key[pos..]))
    decreases t, 1
  {
    match node
    case FullC(_, _) =>
      v := GetFull(H, db, node, key, pos, t);
    case ShortC(_, _, _) =>
      v := GetShort(H, db, node, key, pos, t);
    case ValueC(val) =>
      v := val;
    case _ =>
      v := [];
  }

  method GetFull(H: ChunkHash, db: Store, node: Chunk, key: Path, pos: nat, ghost t: Tree) returns (v: Bytes)
    requires t.Full? && Proper(t) && node == ChunkOf(H, t) && Below(H, db, NONE, t) && H(NilC) !in db
    requires pos < |key| && IsKey(key[pos..])
    ensures v == Text(Lookup(t, key[pos..]))
    decreases t, 0
  {
    var index := key[pos];
    assert key[pos..][1..] == key[pos + 1..];
    assert index < END ==> t.kids[index].Nil? || Proper(t.kids[index]);
    if node.kids[index].HashC? {
      v := TryGetRef(H, db, node.kids[index].hash, key, pos + 1, t.kids[index]);
    } else {
      v := TryGet(H, db, node.kids[index], key, pos + 1, t.kids[index]);
    }
  }

  method GetShort(H: ChunkHash, db: Store, node: Chunk, key: Path, pos: nat, ghost t: Tree) returns (v: Bytes)
    requires t.Short? && Proper(t) && node == ChunkOf(H, t) && Below(H, db, NONE, t) && H(NilC) !in db
    requires pos < |key| && IsKey(key[pos..])
    ensures v == Text(Lookup(t, key[pos..]))
    decreases t, 0
  {
    var n := |node.key|;
    if |key| - pos < n || node.key != key[pos..pos + n] {
      v := [];
    } else {
      assert key[pos..][..n] == t.key && key[pos..][n..] == key[pos + n..];
      ShortEnters(t, key[pos..]);
      if node.child.HashC? {
        v := TryGetRef(H, db, node.child.hash, key, pos + n, t.child);
      } else {
        v := TryGet(H, db, node.child, key, pos + n, t.child);
      }
    }
  }

  lemma ShortEnters(t: Tree, s: Path)
    requires t.Short? && Proper(t) && IsKey(s) && |t.key| <= |s| && s[..|t.key|] == t.key
    ensures Enters(t.child, s[|t.key|..]) && (|s| == |t.key| <==> t.child.Value?)
  {
    assert s[|t.key| - 1] == t.key[|t.key| - 1];
    if |t.key| < |s| { SuffixIsKey(s, |t.key|); }
  }

  /** A hash is followed in the database; one that is not there stands for the empty node. */
  method TryGetRef(H: ChunkHash, db: Store, hash: Digest, key: Path, pos: nat, ghost t: Tree) returns (v: Bytes)
    requires hash == H(ChunkOf(H, t)) && KidStored(H, db, NONE, t) && !t.Value? && H(NilC) !in db
    requires pos <= |key| && Enters(t, key[pos..]) && (pos == |key| ==> t.Nil?)
    ensures v == Text(Lookup(t, key[pos..]))
    decreases t, 2
  {
    if hash in db {
      v := TryGet(H, db, db[hash], key, pos, t);
    } else {
      v := TryGet(H, db, NilC, key, pos, t);
    }
  }

  // ---- The trie.

  /** Every tree of a run has its chunks in the universe. */
  ghost predicate RunIn(H: ChunkHash, universe: set<Chunk>, t: Tree, ops: seq<Op>)
    requires Place(t, false) && AllAscii(ops)
  {
    forall n :: 0 < n <= |ops| ==> NodesIn(H, universe, Build(t, ops[..n]))
  }

  /** `SetNodeForHash`: the chunk of the tree that a root hash stands for. */
  method OpenRoot(H: ChunkHash, db: Store, hash: Digest, ghost t: Tree) returns (root: Chunk)
    requires hash == H(ChunkOf(H, t)) && Saved(H, db, t) && !t.Value? && H(NilC) !in db
    ensures root == ChunkOf(H, t)
  {
    if hash == H(NilC) {
      root := NilC;
      assert t.Nil?;
    } else if hash in db {
      root := db[hash];
    } else {
      root := NilC;
    }
  }

  class Trie {
    const H: ChunkHash
    var db: Store
    var root: Chunk
    var delta: Store
    ghost var tree: Tree

    ghost predicate Valid() reads this {
      && Place(tree, false) && root == ChunkOf(H, tree) && Below(H, db, NONE, tree) && delta == NONE && H(NilC) !in db
    }

    /** Opens the tree of a root hash in a database that holds it. */
    constructor (H: ChunkHash, db: Store, hash: Digest, ghost t: Tree)
      requires Place(t, false) && hash == H(ChunkOf(H, t)) && Saved(H, db, t) && H(NilC) !in db
      ensures Valid() && tree == t && this.db == db && this.H == H
    {
      var chunk := OpenRoot(H, db, hash, t);
      this.H, this.db, root, delta, tree := H, db, chunk, NONE, t;
    }

    method Get(key: Bytes) returns (v: Bytes)
      requires Valid() && Ascii(key)
      ensures v == var found := Lookup(tree, Hex(key)); if found.Some? then found.value else []
    {
      var nibbles := KeybytesToHex(key);
      var path := nibbles[..];
      assert path[0..] == path;
      v := TryGet(H, db, root, path, 0, tree);
    }

    /** `numElements` of the root node. */
    method NumElements() returns (n: nat)
      requires Valid()
      ensures n == Count(tree)
    {
      CountOfChunk(H, tree);
      n := CountOf(root);
    }

    /** The batch `Set`, provided that no two of the chunks involved have the same hash. It returns the hash of
        the new tree, whose nodes are all in the database; the database only grows. */
    method Set(keys: seq<Bytes>, vals: seq<Bytes>, ghost ops: seq<Op>, ghost universe: set<Chunk>)
      returns (hash: Digest)
      requires Valid() && |keys| == |vals| == |ops| && AllAscii(ops)
      requires forall i :: 0 <= i < |ops| ==> ops[i] == Op(keys[i], vals[i])
      requires Apart(H, universe) && Sound(H, universe, db) && RunIn(H, universe, tree, ops)
      modifies this`db, this`delta
      ensures Valid() && Sound(H, universe, db) && Grows(old(db), db)
      ensures hash == H(ChunkOf(H, Build(tree, ops)))
      ensures ops != [] ==> Saved(H, db, Build(tree, ops))
    {
      if |keys| == 0 {
        return H(root);
      }
      ghost var before := db;
      var newRoot, overlay := InsertAll(H, db, root, keys, vals, tree, ops, universe);
      hash := H(newRoot);
      db := Commit(H, db, overlay, newRoot, Build(tree, ops), universe);
      delta := NONE;
      NilIsNowhere(H, universe, db);
      BelowInMore(H, before, db, NONE, tree);
    }
  }

  method InsertAll(H: ChunkHash, db: Store, root: Chunk, keys: seq<Bytes>, vals: seq<Bytes>, ghost t: Tree,
                   ghost ops: seq<Op>, ghost universe: set<Chunk>) returns (newRoot: Chunk, delta: Store)
    requires |keys| == |vals| == |ops| > 0 && AllAscii(ops)
    requires forall i :: 0 <= i < |ops| ==> ops[i] == Op(keys[i], vals[i])
    requires Place(t, false) && root == ChunkOf(H, t) && Below(H, db, NONE, t)
    requires Apart(H, universe) && Sound(H, universe, db) && RunIn(H, universe, t, ops)
    ensures Inserted(H, universe, db, NONE, delta, Build(t, ops), newRoot) && Proper(Build(t, ops))
  {
    newRoot, delta := root, NONE;
    assert ops[..0] == [];
    for i := 0 to |keys|
      invariant Sound(H, universe, delta)
      invariant newRoot == ChunkOf(H, Build(t, ops[..i])) && Below(H, db, delta, Build(t, ops[..i]))
      invariant i > 0 ==>
            Inserted(H, universe, db, NONE, delta, Build(t, ops[..i]), newRoot) && Proper(Build(t, ops[..i]))
    {
      ghost var before := Build(t, ops[..i]);
      var nibbles := KeybytesToHex(keys[i]);
      var path := nibbles[..];
      assert ops[..i + 1][..i] == ops[..i] && ops[..i + 1][i] == ops[i];
      assert Build(t, ops[..i + 1]) == Insert(before, path, vals[i]);
      InsertProper(before, path, vals[i]);
      newRoot, delta := InsertNode(H, db, delta, newRoot, path, vals[i], before, universe);
    }
    assert ops[..|ops|] == ops;
  }

  // ---- Root hashes.

  /** Runs of batches that end in the same map give the same root hash, whatever the hash function. */
  lemma RootHashOfMap(H: ChunkHash, batches: seq<seq<Op>>, batches': seq<seq<Op>>)
    requires AllBatches(batches) && AllBatches(batches') && SameFinalMap(batches, batches')
    ensures ChunkOf(H, BuildAll(Nil, batches)) == ChunkOf(H, BuildAll(Nil, batches'))
    ensures H(ChunkOf(H, BuildAll(Nil, batches))) == H(ChunkOf(H, BuildAll(Nil, batches')))
  {
    HistoryIndependence(batches, batches');
  }

  /** Every tree of a run of batches has its chunks in the universe. */
  ghost predicate BatchesIn(H: ChunkHash, universe: set<Chunk>, batches: seq<seq<Op>>)
    requires AllBatches(batches)
  {
    forall i :: 0 <= i < |batches| ==> RunIn(H, universe, BuildAll(Nil, batches[..i]), batches[i])
  }

  /** The root hash after `i` batches, with its whole tree in the database. */
  ghost predicate IsRootOf(H: ChunkHash, db: Store, hash: Digest, batches: seq<seq<Op>>, i: nat)
    requires AllBatches(batches) && i <= |batches|
  {
    hash == H(ChunkOf(H, BuildAll(Nil, batches[..i]))) && Saved(H, db, BuildAll(Nil, batches[..i]))
  }

  /** A run of commits: each opens the trie at the last root hash and sets one batch. At the end every root hash of the
      run, the oldest included, opens its own tree. */
  method CommitBatches(H: ChunkHash, batches: seq<seq<Op>>, ghost universe: set<Chunk>)
    returns (db: Store, hashes: seq<Digest>)
    requires AllBatches(batches) && Apart(H, universe) && BatchesIn(H, universe, batches)
    ensures |hashes| == |batches| + 1 && AllRoots(H, db, hashes, batches)
  {
    db, hashes := NONE, [H(NilC)];
    for n := 0 to |batches|
      invariant |hashes| == n + 1 && Sound(H, universe, db) && AllRoots(H, db, hashes, batches)
    {
      assert IsRootOf(H, db, hashes[n], batches, n);
      ghost var before := db;
      var hash;
      db, hash := CommitBatch(H, db, hashes[n], batches[n], BuildAll(Nil, batches[..n]), universe);
      RootsStay(H, before, db, hashes, hash, batches);
      hashes := hashes + [hash];
    }
  }

  ghost predicate AllRoots(H: ChunkHash, db: Store, hashes: seq<Digest>, batches: seq<seq<Op>>)
    requires AllBatches(batches)
  {
    |hashes| <= |batches| + 1 && forall i :: 0 <= i < |hashes| ==> IsRootOf(H, db, hashes[i], batches, i)
  }

  lemma RootsStay(H: ChunkHash, db: Store, db': Store, hashes: seq<Digest>, hash: Digest, batches: seq<seq<Op>>)
    requires AllBatches(batches) && 0 < |hashes| <= |batches| && AllRoots(H, db, hashes, batches) && Grows(db, db')
    requires var t := Build(BuildAll(Nil, batches[..|hashes| - 1]), batches[|hashes| - 1]);
             hash == H(ChunkOf(H, t)) && Saved(H, db', t)
    ensures AllRoots(H, db', hashes + [hash], batches)
  {
    var n, hashes' := |hashes|, hashes + [hash];
    assert IsRootOf(H, db', hash, batches, n) by { BuildAllMore(Nil, batches, n - 1); }
    forall i | 0 <= i < |hashes'| ensures IsRootOf(H, db', hashes'[i], batches, i) {
      if i < n {
        assert hashes'[i] == hashes[i];
        RootStays(H, db, db', hashes[i], batches, i);
      }
    }
  }

  lemma RootStays(H: ChunkHash, db: Store, db': Store, hash: Digest, batches: seq<seq<Op>>, i: nat)
    requires AllBatches(batches) && i <= |batches| && IsRootOf(H, db, hash, batches, i) && Grows(db, db')
    ensures IsRootOf(H, db', hash, batches, i)
  {
    KidInMore(H, db, db', NONE, BuildAll(Nil, batches[..i]));
  }

  method CommitBatch(H: ChunkHash, db: Store, root: Digest, ops: seq<Op>, ghost t: Tree, ghost universe: set<Chunk>)
    returns (db': Store, hash: Digest)
    requires Apart(H, universe) && Sound(H, universe, db) && Place(t, false) && AllAscii(ops)
    requires root == H(ChunkOf(H, t)) && Saved(H, db, t) && RunIn(H, universe, t, ops)
    ensures Sound(H, universe, db') && Grows(db, db')
    ensures hash == H(ChunkOf(H, Build(t, ops))) && Saved(H, db', Build(t, ops))
  {
    NilIsNowhere(H, universe, db);
    var trie := new Trie(H, db, root, t);
    var keys := seq(|ops|, i requires 0 <= i < |ops| => ops[i].key);
    var vals := seq(|ops|, i requires 0 <= i < |ops| => ops[i].val);
    hash := trie.Set(keys, vals, ops, universe);
    db' := trie.db;
    KidInMore(H, db, db', NONE, t);
  }

  /** Conversely the root hash determines the tree, unless two of the nodes' chunks collide. */
  lemma {:induction false} HashDeterminesTree(H: ChunkHash, universe: set<Chunk>, t: Tree, u: Tree, end: bool)
    requires Apart(H, universe) && NodesIn(H, universe, t) && NodesIn(H, universe, u) && Place(t, end) && Place(u, end)
    requires H(ChunkOf(H, t)) == H(ChunkOf(H, u))
    ensures t == u
    decreases t
  {
    assert ChunkOf(H, t) == ChunkOf(H, u);
    match t
    case Nil =>
    case Value(_) =>
    case Short(k, c) =>
      if c.Value? || u.child.Value? {
        assert ChunkOf(H, t).child == ChunkOf(H, u).child;
      } else {
        HashDeterminesTree(H, universe, c, u.child, false);
      }
    case Full(kids) =>
      forall i | 0 <= i < WIDTH ensures kids[i] == u.kids[i] {
        assert ChunkOf(H, t).kids[i] == ChunkOf(H, u).kids[i];
        HashDeterminesTree(H, universe, kids[i], u.kids[i], i == END);
      }
  }
}
