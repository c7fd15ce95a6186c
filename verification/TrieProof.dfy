/** Membership proofs of the trie (ledger/ledgerdb/mpt/trie.cc): the nodes on the way to the value. */
module TrieProof {
  import opened Codec
  import opened Options
  import opened Hashing
  import opened Nibbles
  import opened TrieTree
  import opened TrieStore

  /** A node, and the child of a full node that the path takes. */
  datatype Step = Step(chunk: Chunk, pos: Nibble)

  /** The nodes that a search for `s` visits below and including `t`. */
  ghost function ProofOf(H: ChunkHash, t: Tree, s: Path): seq<Step>
    decreases t
  {
    match t
    case Nil => []
    case Value(_) => []
    case Short(k, c) => [Step(ChunkOf(H, t), 0)] + if StartsWith(s, k) then ProofOf(H, c, s[|k|..]) else []
    case Full(kids) =>
      if s == [] || |kids| != WIDTH then [] else [Step(ChunkOf(H, t), s[0])] + ProofOf(H, kids[s[0]], s[1..])
  }

  lemma FullStep(H: ChunkHash, t: Tree, s: Path, proof: seq<Step>)
    requires t.Full? && |t.kids| == WIDTH && s != []
    ensures proof + ProofOf(H, t, s) == proof + [Step(ChunkOf(H, t), s[0])] + ProofOf(H, t.kids[s[0]], s[1..])
    ensures Lookup(t, s) == Lookup(t.kids[s[0]], s[1..])
  {
    Associate(proof, [Step(ChunkOf(H, t), s[0])], ProofOf(H, t.kids[s[0]], s[1..]));
  }

  lemma Associate(a: seq<Step>, b: seq<Step>, c: seq<Step>)
    ensures a + (b + c) == a + b + c
  {
  }

  lemma ShortStep(H: ChunkHash, t: Tree, s: Path, proof: seq<Step>)
    requires t.Short? && StartsWith(s, t.key)
    ensures proof + ProofOf(H, t, s) == proof + [Step(ChunkOf(H, t), 0)] + ProofOf(H, t.child, s[|t.key|..])
    ensures Lookup(t, s) == Lookup(t.child, s[|t.key|..])
  {
    var rest := ProofOf(H, t.child, s[|t.key|..]);
    assert ProofOf(H, t, s) == [Step(ChunkOf(H, t), 0)] + rest;
    Associate(proof, [Step(ChunkOf(H, t), 0)], rest);
  }

  /** `TryGetProof`: appends the visited nodes to the proof, and sets its value. */
  method TryGetProof(H: ChunkHash, db: Store, node: Chunk, key: Path, pos: nat, proof: seq<Step>, ghost t: Tree)
    returns (steps: seq<Step>, v: Bytes)
    requires node == ChunkOf(H, t) && Below(H, db, NONE, t) && H(NilC) !in db
    requires pos <= |key| && Enters(t, key[pos..]) && (pos == |key| ==> t.Nil? || t.Value?)
    ensures steps == proof + ProofOf(H, t, key[pos..]) && v == Text(Lookup(t, key[pos..]))
    decreases t, 1
  {
    match node
    case FullC(_, kids) =>
      steps, v := FullProof(H, db, node, key, pos, proof, t);
    case ShortC(_, k, child) =>
      steps, v := ShortProof(H, db, node, key, pos, proof, t);
    case ValueC(val) =>
      steps, v := proof, val;
    case _ =>
      steps, v := proof, [];
  }

  method FullProof(H: ChunkHash, db: Store, node: Chunk, key: Path, pos: nat, proof: seq<Step>, ghost t: Tree)
    returns (steps: seq<Step>, v: Bytes)
    requires t.Full? && Proper(t) && node == ChunkOf(H, t) && Below(H, db, NONE, t) && H(NilC) !in db
    requires pos < |key| && IsKey(key[pos..])
    ensures steps == proof + ProofOf(H, t, key[pos..]) && v == Text(Lookup(t, key[pos..]))
    decreases t, 0
  {
    var index := key[pos];
    assert key[pos..][1..] == key[pos + 1..];
    assert index < END ==> t.kids[index].Nil? || Proper(t.kids[index]);
    FullStep(H, t, key[pos..], proof);
    var more := proof + [Step(node, index)];
    if node.kids[index].HashC? {
      steps, v := TryGetProofRef(H, db, node.kids[index].hash, key, pos + 1, more, t.kids[index]);
    } else {
      steps, v := TryGetProof(H, db, node.kids[index], key, pos + 1, more, t.kids[index]);
    }
  }

  method ShortProof(H: ChunkHash, db: Store, node: Chunk, key: Path, pos: nat, proof: seq<Step>, ghost t: Tree)
    returns (steps: seq<Step>, v: Bytes)
    requires t.Short? && Proper(t) && node == ChunkOf(H, t) && Below(H, db, NONE, t) && H(NilC) !in db
    requires pos < |key| && IsKey(key[pos..])
    ensures steps == proof + ProofOf(H, t, key[pos..]) && v == Text(Lookup(t, key[pos..]))
    decreases t, 0
  {
    var more := proof + [Step(node, 0)];
    var n := |node.key|;
    if |key| - pos < n || node.key != key[pos..pos + n] {
      steps, v := more, [];
    } else {
      assert key[pos..][..n] == t.key && key[pos..][n..] == key[pos + n..];
      ShortEnters(t, key[pos..]);
      ShortStep(H, t, key[pos..], proof);
      if node.child.HashC? {
        steps, v := TryGetProofRef(H, db, node.child.hash, key, pos + n, more, t.child);
      } else {
        steps, v := TryGetProof(H, db, node.child, key, pos + n, more, t.child);
      }
    }
  }

  method TryGetProofRef(H: ChunkHash, db: Store, hash: Digest, key: Path, pos: nat, proof: seq<Step>, ghost t: Tree)
    returns (steps: seq<Step>, v: Bytes)
    requires hash == H(ChunkOf(H, t)) && KidStored(H, db, NONE, t) && !t.Value? && H(NilC) !in db
    requires pos <= |key| && Enters(t, key[pos..]) && (pos == |key| ==> t.Nil?)
    ensures steps == proof + ProofOf(H, t, key[pos..]) && v == Text(Lookup(t, key[pos..]))
    decreases t, 2
  {
    if hash in db {
      steps, v := TryGetProof(H, db, db[hash], key, pos, proof, t);
    } else {
      steps, v := TryGetProof(H, db, NilC, key, pos, proof, t);
    }
  }

  method GetProof(trie: Trie, key: Bytes) returns (steps: seq<Step>, v: Bytes)
    requires trie.Valid() && Ascii(key)
    ensures steps == ProofOf(trie.H, trie.tree, Hex(key))
    ensures v == var found := Lookup(trie.tree, Hex(key)); if found.Some? then found.value else []
  {
    var nibbles := KeybytesToHex(key);
    var path := nibbles[..];
    assert path[0..] == path;
    steps, v := TryGetProof(trie.H, trie.db, trie.root, path, 0, [], trie.tree);
  }

  /** What the source reads where it casts a chunk to a node of another kind. Nothing is known of it. */
  datatype Casts = Casts(hash: Chunk -> Digest, val: Chunk -> Bytes, key: Chunk -> Bytes, child: Chunk -> Chunk,
                         kid: (Chunk, Nibble) -> Chunk)

  function HashIn(R: Casts, c: Chunk): Digest { if c.HashC? then c.hash else R.hash(c) }

  /** The empty node reads as the empty value. */
  function ValueIn(R: Casts, c: Chunk): Bytes {
    if c.ValueC? then c.val else if c.NilC? then [] else R.val(c)
  }

  function KeyIn(R: Casts, c: Chunk): Bytes { if c.ShortC? then c.key else R.key(c) }

  function ChildIn(R: Casts, c: Chunk): Chunk { if c.ShortC? then c.child else R.child(c) }

  function KidIn(R: Casts, c: Chunk, i: Nibble): Chunk {
    if c.FullC? && i < |c.kids| then c.kids[i] else R.kid(c, i)
  }

  /** Each node hashes to what the one before refers to, and a value that is met is the claimed one. */
  ghost predicate Accepts(H: ChunkHash, R: Casts, steps: seq<Step>, value: Bytes, target: Digest) {
    steps == [] ||
    (var c, rest := steps[0].chunk, steps[1..];
     && H(c) == target
     && if c.FullC? then
          var kid := KidIn(R, c, steps[0].pos);
          if steps[0].pos == END then ValueIn(R, kid) == value && Accepts(H, R, rest, value, target)
          else Accepts(H, R, rest, value, HashIn(R, kid))
        else
          var child := ChildIn(R, c);
          if child.HashC? then Accepts(H, R, rest, value, child.hash)
          else ValueIn(R, child) == value && Accepts(H, R, rest, value, target))
  }

  /** What verification comes to: taking the rest of the key from beyond its end throws. */
  datatype Verdict = Accept | Reject | Throw

  /** What a proof without a value compares at a short node: the node's nibbles and the key's own bytes. */
  predicate BytesStartWith(key: Bytes, pos: nat, k: Bytes)
    requires pos <= |key|
  {
    |k| <= |key| - pos && forall i :: 0 <= i < |k| ==> key[pos + i] == k[i]
  }

  ghost function Verified(H: ChunkHash, R: Casts, steps: seq<Step>, value: Bytes, target: Digest, key: Bytes, pos: nat)
    : Verdict
  {
    if steps == [] then Accept
    else
      var c, rest := steps[0].chunk, steps[1..];
      if H(c) != target then Reject
      else if c.FullC? then
        var kid := KidIn(R, c, steps[0].pos);
        if steps[0].pos != END then Verified(H, R, rest, value, HashIn(R, kid), key, pos + 1)
        else if ValueIn(R, kid) == value then Verified(H, R, rest, value, target, key, pos + 1)
        else Reject
      else
        var k, child := KeyIn(R, c), ChildIn(R, c);
        if value == [] then
          if pos > |key| then Throw
          else if BytesStartWith(key, pos, k) then Verified(H, R, rest, value, target, key, pos)
          else Reject
        else if child.HashC? then Verified(H, R, rest, value, child.hash, key, pos + |k|)
        else if ValueIn(R, child) == value then Verified(H, R, rest, value, target, key, pos + |k|)
        else Reject
  }

  /** `VerifyProof`, on chunks of any kind. A proof without a value claims that the key is absent. */
  method VerifyProof(H: ChunkHash, R: Casts, steps: seq<Step>, value: Bytes, digest: Digest, key: Bytes)
    returns (verdict: Verdict)
    ensures verdict == Verified(H, R, steps, value, digest, key, 0)
  {
    var pos, target := 0, digest;
    assert steps[0..] == steps;
    for i := 0 to |steps|
      invariant pos >= 0
      invariant Verified(H, R, steps, value, digest, key, 0) == Verified(H, R, steps[i..], value, target, key, pos)
    {
      var c := steps[i].chunk;
      assert steps[i..][1..] == steps[i + 1..] && steps[i..][0] == steps[i];
      if target != H(c) {
        return Reject;
      }
      if c.FullC? {
        pos := pos + 1;
        var kid := KidIn(R, c, steps[i].pos);
        if steps[i].pos == END {
          if ValueIn(R, kid) != value {
            return Reject;
          }
        } else {
          target := HashIn(R, kid);
        }
      } else if value != [] {
        var child := ChildIn(R, c);
        if child.HashC? {
          target := child.hash;
        } else if ValueIn(R, child) != value {
          return Reject;
        }
        pos := pos + |KeyIn(R, c)|;
      } else {
        if pos > |key| {
          return Throw;
        }
        var k := KeyIn(R, c);
        var matchLen := ComputePrefixLen(key[pos..], k);
        if matchLen != |k| {
          return Reject;
        }
      }
    }
    verdict := Accept;
  }

  /** The verdict on a claimed value never looks at the key. */
  lemma {:induction false} ClaimVerdict(H: ChunkHash, R: Casts, steps: seq<Step>, value: Bytes, target: Digest,
                                        key: Bytes, pos: nat)
    requires value != []
    ensures Verified(H, R, steps, value, target, key, pos) ==
            if Accepts(H, R, steps, value, target) then Accept else Reject
  {
    if steps != [] && H(steps[0].chunk) == target {
      var c, rest := steps[0].chunk, steps[1..];
      if c.FullC? {
        var kid := KidIn(R, c, steps[0].pos);
        ClaimVerdict(H, R, rest, value, if steps[0].pos == END then target else HashIn(R, kid), key, pos + 1);
      } else {
        var child := ChildIn(R, c);
        ClaimVerdict(H, R, rest, value, if child.HashC? then child.hash else target, key, pos + |KeyIn(R, c)|);
      }
    }
  }

  /** Completeness: the proof of a key that is present is accepted against the root hash. */
  lemma {:induction false} ProofIsAccepted(H: ChunkHash, R: Casts, t: Tree, s: Path)
    requires Proper(t) && IsKey(s) && Lookup(t, s).Some?
    ensures Accepts(H, R, ProofOf(H, t, s), Lookup(t, s).value, H(ChunkOf(H, t)))
    decreases t
  {
    var steps := ProofOf(H, t, s);
    match t
    case Short(k, c) =>
      ShortEnters(t, s);
      var rest := ProofOf(H, c, s[|k|..]);
      assert steps[1..] == rest;
      if !c.Value? { ProofIsAccepted(H, R, c, s[|k|..]); }
    case Full(kids) =>
      var rest := ProofOf(H, kids[s[0]], s[1..]);
      assert steps[1..] == rest;
      if s[0] != END { ProofIsAccepted(H, R, kids[s[0]], s[1..]); }
  }

  /** So the proof of every key with a non-empty value is accepted by `VerifyProof`. */
  lemma PresentKeyVerdict(H: ChunkHash, R: Casts, t: Tree, key: Bytes)
    requires Proper(t) && Ascii(key) && Text(Lookup(t, Hex(key))) != []
    ensures Verified(H, R, ProofOf(H, t, Hex(key)), Lookup(t, Hex(key)).value, H(ChunkOf(H, t)), key, 0) == Accept
  {
    ProofIsAccepted(H, R, t, Hex(key));
    ClaimVerdict(H, R, ProofOf(H, t, Hex(key)), Lookup(t, Hex(key)).value, H(ChunkOf(H, t)), key, 0);
  }

  /** The proof's nodes and positions spell the key. */
  ghost predicate Spells(R: Casts, steps: seq<Step>, s: Path) {
    if steps == [] then s == []
    else if steps[0].chunk.FullC? then s != [] && s[0] == steps[0].pos && Spells(R, steps[1..], s[1..])
    else
      var k := KeyIn(R, steps[0].chunk);
      |k| <= |s| && s[..|k|] == k && Spells(R, steps[1..], s[|k|..])
  }

  /** None of the proof's chunks is the empty node. */
  ghost predicate NoneEmpty(steps: seq<Step>) { forall i :: 0 <= i < |steps| ==> !steps[i].chunk.NilC? }

  ghost predicate StepsIn(universe: set<Chunk>, steps: seq<Step>) {
    forall i :: 0 <= i < |steps| ==> steps[i].chunk in universe
  }

  /** The same nodes, and the same children of full nodes; the position beside a short node is not used. */
  ghost predicate SameSteps(a: seq<Step>, b: seq<Step>) {
    |a| == |b| && forall i :: 0 <= i < |a| ==> a[i].chunk == b[i].chunk && (a[i].chunk.FullC? ==> a[i].pos == b[i].pos)
  }

  /** The proof spells the key and is accepted for the value. */
  ghost predicate Claims(H: ChunkHash, R: Casts, t: Tree, s: Path, steps: seq<Step>, value: Bytes) {
    Spells(R, steps, s) && Accepts(H, R, steps, value, H(ChunkOf(H, t)))
  }

  /** The proof is the key's own, and the value is the key's. */
  ghost predicate Proves(H: ChunkHash, t: Tree, s: Path, steps: seq<Step>, value: Bytes) {
    Lookup(t, s) == Some(value) && SameSteps(steps, ProofOf(H, t, s))
  }

  /** Binding, exactly: unless two of the chunks of the tree and of the proof collide, a proof without empty nodes
      that spells the key is accepted if and only if it is the key's own proof and the value is the key's. */
  lemma {:induction false} AcceptedProofIsRight(H: ChunkHash, R: Casts, universe: set<Chunk>, t: Tree, s: Path,
                                                steps: seq<Step>, value: Bytes)
    requires Apart(H, universe) && NodesIn(H, universe, t) && StepsIn(universe, steps)
    requires (t.Nil? || Proper(t)) && IsKey(s) && NoneEmpty(steps) && value != []
    ensures Claims(H, R, t, s, steps, value) <==> Proves(H, t, s, steps, value)
    decreases t
  {
    if steps == [] || steps[0].chunk != ChunkOf(H, t) {
      OtherRoot(H, R, universe, t, s, steps, value);
    } else {
      assert !steps[0].chunk.NilC?;
      var rest := steps[1..];
      match t
      case Short(k, child) =>
        if StartsWith(s, k) {
          ShortEnters(t, s);
          ClaimsShort(H, R, t, s, steps, value);
          ProvesShort(H, t, s, steps, value);
          if child.Value? {
            NothingBehind(H, R, universe, t, rest, value);
          } else {
            AcceptedProofIsRight(H, R, universe, child, s[|k|..], rest, value);
          }
        }
      case Full(kids) =>
        FullEnters(t, s);
        ClaimsFull(H, R, t, s, steps, value);
        ProvesFull(H, t, s, steps, value);
        if s[0] == END {
          NothingBehind(H, R, universe, t, rest, value);
        } else {
          AcceptedProofIsRight(H, R, universe, kids[s[0]], s[1..], rest, value);
        }
    }
  }

  lemma OtherRoot(H: ChunkHash, R: Casts, universe: set<Chunk>, t: Tree, s: Path, steps: seq<Step>, value: Bytes)
    requires Apart(H, universe) && NodesIn(H, universe, t) && StepsIn(universe, steps) && NoneEmpty(steps)
    requires (t.Nil? || Proper(t)) && s != [] && (steps == [] || steps[0].chunk != ChunkOf(H, t))
    ensures !Claims(H, R, t, s, steps, value) && !Proves(H, t, s, steps, value)
  {
    if steps != [] { assert steps[0].chunk in universe; }
    assert t.Short? || t.Full? ==> ProofOf(H, t, s) != [] && ProofOf(H, t, s)[0].chunk == ChunkOf(H, t);
  }

  lemma ClaimsShort(H: ChunkHash, R: Casts, t: Tree, s: Path, steps: seq<Step>, value: Bytes)
    requires t.Short? && steps != [] && steps[0].chunk == ChunkOf(H, t) && StartsWith(s, t.key)
    ensures var child, rest, tail := t.child, steps[1..], s[|t.key|..];
            Claims(H, R, t, s, steps, value) <==>
              if !child.Value? then Claims(H, R, child, tail, rest, value)
              else child.val == value && Spells(R, rest, tail) && Accepts(H, R, rest, value, H(ChunkOf(H, t)))
  {
  }

  lemma ProvesShort(H: ChunkHash, t: Tree, s: Path, steps: seq<Step>, value: Bytes)
    requires t.Short? && steps != [] && steps[0].chunk == ChunkOf(H, t) && StartsWith(s, t.key)
    ensures var child, rest, tail := t.child, steps[1..], s[|t.key|..];
            Proves(H, t, s, steps, value) <==>
              if child.Value? then child.val == value && rest == [] else Proves(H, child, tail, rest, value)
  {
    var rest, below := steps[1..], ProofOf(H, t.child, s[|t.key|..]);
    assert ProofOf(H, t, s) == [Step(ChunkOf(H, t), 0)] + below;
    SameTail(steps, Step(ChunkOf(H, t), 0), below);
    assert Lookup(t, s) == Lookup(t.child, s[|t.key|..]);
    if t.child.Value? {
      assert below == [];
      assert SameSteps(rest, below) <==> rest == [];
    }
  }

  lemma ClaimsFull(H: ChunkHash, R: Casts, t: Tree, s: Path, steps: seq<Step>, value: Bytes)
    requires t.Full? && Proper(t) && s != [] && value != []
    requires steps != [] && steps[0].chunk == ChunkOf(H, t)
    ensures var kid, rest, tail := t.kids[s[0]], steps[1..], s[1..];
            Claims(H, R, t, s, steps, value) <==>
              && steps[0].pos == s[0]
              && if s[0] != END then Claims(H, R, kid, tail, rest, value)
                 else kid == Value(value) && Spells(R, rest, tail) && Accepts(H, R, rest, value, H(ChunkOf(H, t)))
  {
    assert ValueIn(R, ChunkOf(H, t).kids[END]) == value <==> t.kids[END] == Value(value);
  }

  lemma ProvesFull(H: ChunkHash, t: Tree, s: Path, steps: seq<Step>, value: Bytes)
    requires t.Full? && Proper(t) && s != [] && steps != [] && steps[0].chunk == ChunkOf(H, t)
    ensures var kid, rest, tail := t.kids[s[0]], steps[1..], s[1..];
            Proves(H, t, s, steps, value) <==>
              && steps[0].pos == s[0]
              && if s[0] != END then Proves(H, kid, tail, rest, value) else kid == Value(value) && rest == []
  {
    var rest, below := steps[1..], ProofOf(H, t.kids[s[0]], s[1..]);
    assert ProofOf(H, t, s) == [Step(ChunkOf(H, t), s[0])] + below;
    SameTail(steps, Step(ChunkOf(H, t), s[0]), below);
    assert Lookup(t, s) == Lookup(t.kids[s[0]], s[1..]);
    if s[0] == END {
      assert below == [];
      assert SameSteps(rest, below) <==> rest == [];
    }
  }

  lemma SameTail(steps: seq<Step>, head: Step, rest: seq<Step>)
    requires steps != []
    ensures SameSteps(steps, [head] + rest) <==>
      && steps[0].chunk == head.chunk && (head.chunk.FullC? ==> steps[0].pos == head.pos) && SameSteps(steps[1..], rest)
  {
    var all := [head] + rest;
    assert forall i :: 0 < i < |all| ==> all[i] == rest[i - 1];
    if SameSteps(steps, all) {
      forall i | 0 <= i < |rest|
        ensures steps[1..][i].chunk == rest[i].chunk && (rest[i].chunk.FullC? ==> steps[1..][i].pos == rest[i].pos)
      {
        assert steps[i + 1].chunk == all[i + 1].chunk;
      }
    }
  }

  /** Behind the node that holds the value, nothing that spells no more of the key is accepted. */
  lemma NothingBehind(H: ChunkHash, R: Casts, universe: set<Chunk>, t: Tree, rest: seq<Step>, value: Bytes)
    requires Apart(H, universe) && NodesIn(H, universe, t) && StepsIn(universe, rest) && Proper(t)
    ensures Spells(R, rest, []) && Accepts(H, R, rest, value, H(ChunkOf(H, t))) <==> rest == []
  {
    if rest != [] { assert rest[0].chunk in universe; }
  }

  // ---- What is accepted beyond that.

  /** An empty node in a proof is read as a short one, and so may show a value in the empty tree. */
  lemma EmptyNodeIsRead(H: ChunkHash, R: Casts, s: Path, value: Bytes)
    requires R.key(NilC) == s && R.child(NilC) == ValueC(value)
    ensures Claims(H, R, Nil, s, [Step(NilC, 0)], value) && Lookup(Nil, s) == None
  {
    assert s[|s|..] == [];
  }

  /** Without nodes, any value is accepted against any digest. */
  lemma EmptyProofIsAccepted(H: ChunkHash, R: Casts, value: Bytes, digest: Digest, key: Bytes)
    ensures Verified(H, R, [], value, digest, key, 0) == Accept
  {
  }

  /** A proof that is cut short before the node that holds the value is accepted for any value: none is met. */
  lemma {:induction false} TruncatedProofIsAccepted(H: ChunkHash, R: Casts, t: Tree, s: Path, n: nat, value: Bytes)
    requires Proper(t) && IsKey(s) && n < |ProofOf(H, t, s)|
    ensures Accepts(H, R, ProofOf(H, t, s)[..n], value, H(ChunkOf(H, t)))
    decreases t
  {
    if n > 0 {
      match t
      case Short(k, c) =>
        ShortEnters(t, s);
        TruncatedProofIsAccepted(H, R, c, s[|k|..], n - 1, value);
        TruncatedShort(H, R, t, s, n, value);
      case Full(kids) =>
        FullEnters(t, s);
        TruncatedProofIsAccepted(H, R, kids[s[0]], s[1..], n - 1, value);
        TruncatedFull(H, R, t, s, n, value);
    }
  }

  lemma TruncatedShort(H: ChunkHash, R: Casts, t: Tree, s: Path, n: nat, value: Bytes)
    requires t.Short? && !t.child.Value? && StartsWith(s, t.key) && 0 < n <= |ProofOf(H, t.child, s[|t.key|..])|
    requires var cut := ProofOf(H, t.child, s[|t.key|..])[..n - 1];
             Accepts(H, R, cut, value, H(ChunkOf(H, t.child)))
    ensures n < |ProofOf(H, t, s)|
    ensures Accepts(H, R, ProofOf(H, t, s)[..n], value, H(ChunkOf(H, t)))
  {
    var rest := ProofOf(H, t.child, s[|t.key|..]);
    assert ProofOf(H, t, s) == [Step(ChunkOf(H, t), 0)] + rest;
    CutTail(Step(ChunkOf(H, t), 0), rest, n);
    AcceptsShort(H, R, t, rest[..n - 1], value);
  }

  lemma TruncatedFull(H: ChunkHash, R: Casts, t: Tree, s: Path, n: nat, value: Bytes)
    requires t.Full? && |t.kids| == WIDTH && s != [] && s[0] < END && 0 < n <= |ProofOf(H, t.kids[s[0]], s[1..])|
    requires var cut := ProofOf(H, t.kids[s[0]], s[1..])[..n - 1];
             Accepts(H, R, cut, value, H(ChunkOf(H, t.kids[s[0]])))
    ensures n < |ProofOf(H, t, s)|
    ensures Accepts(H, R, ProofOf(H, t, s)[..n], value, H(ChunkOf(H, t)))
  {
    var rest := ProofOf(H, t.kids[s[0]], s[1..]);
    assert ProofOf(H, t, s) == [Step(ChunkOf(H, t), s[0])] + rest;
    CutTail(Step(ChunkOf(H, t), s[0]), rest, n);
    AcceptsFull(H, R, t, s[0], rest[..n - 1], value);
  }

  lemma CutTail(head: Step, rest: seq<Step>, n: nat)
    requires 0 < n <= |rest| + 1
    ensures ([head] + rest)[..n] == [head] + rest[..n - 1]
  {
  }

  /** A node in front of an accepted proof of the child that it leads to. */
  lemma AcceptsShort(H: ChunkHash, R: Casts, t: Tree, rest: seq<Step>, value: Bytes)
    requires t.Short? && !t.child.Value? && Accepts(H, R, rest, value, H(ChunkOf(H, t.child)))
    ensures var steps := [Step(ChunkOf(H, t), 0)] + rest; Accepts(H, R, steps, value, H(ChunkOf(H, t)))
  {
    assert ([Step(ChunkOf(H, t), 0)] + rest)[1..] == rest;
  }

  lemma AcceptsFull(H: ChunkHash, R: Casts, t: Tree, i: Nibble, rest: seq<Step>, value: Bytes)
    requires t.Full? && |t.kids| == WIDTH && i < END && Accepts(H, R, rest, value, H(ChunkOf(H, t.kids[i])))
    ensures var steps := [Step(ChunkOf(H, t), i)] + rest; Accepts(H, R, steps, value, H(ChunkOf(H, t)))
  {
    assert ([Step(ChunkOf(H, t), i)] + rest)[1..] == rest;
  }

  // ---- Proofs of absence.

  /** All nodes are full ones, except that the last may be a short one whose nibbles start the key's own bytes. */
  ghost predicate AbsenceReads(steps: seq<Step>, key: Bytes, pos: nat) {
    forall i :: 0 <= i < |steps| && steps[i].chunk.ShortC? ==>
      i == |steps| - 1 && pos + i <= |key| && BytesStartWith(key, pos + i, steps[i].chunk.key)
  }

  /** The honest proof of a key without a value is accepted exactly in that case. */
  lemma {:induction false} AbsenceVerdict(H: ChunkHash, R: Casts, universe: set<Chunk>, t: Tree, s: Path,
                                          key: Bytes, pos: nat)
    requires Apart(H, universe) && NodesIn(H, universe, t) && (t.Nil? || Proper(t)) && IsKey(s)
    requires Text(Lookup(t, s)) == []
    ensures Verified(H, R, ProofOf(H, t, s), [], H(ChunkOf(H, t)), key, pos) == Accept <==>
              AbsenceReads(ProofOf(H, t, s), key, pos)
    decreases t
  {
    match t
    case Nil =>
    case Short(k, c) =>
      var rest := if StartsWith(s, k) then ProofOf(H, c, s[|k|..]) else [];
      if StartsWith(s, k) {
        ShortEnters(t, s);
        if !c.Value? { AbsenceVerdict(H, R, universe, c, s[|k|..], key, pos); }
      }
      AbsenceAtShort(H, R, universe, t, rest, key, pos);
    case Full(kids) =>
      var rest := ProofOf(H, kids[s[0]], s[1..]);
      if s[0] != END { AbsenceVerdict(H, R, universe, kids[s[0]], s[1..], key, pos + 1); }
      AbsenceAtFull(H, R, t, s[0], rest, key, pos);
      AbsenceShift(Step(ChunkOf(H, t), s[0]), rest, key, pos);
  }

  /** A short node does not lead on: the next node is compared with the short node's own hash. */
  lemma AbsenceAtShort(H: ChunkHash, R: Casts, universe: set<Chunk>, t: Tree, rest: seq<Step>, key: Bytes, pos: nat)
    requires Apart(H, universe) && NodesIn(H, universe, t) && t.Short?
    requires rest != [] ==> rest[0].chunk == ChunkOf(H, t.child) && t.child.Full?
    ensures var steps := [Step(ChunkOf(H, t), 0)] + rest;
            Verified(H, R, steps, [], H(ChunkOf(H, t)), key, pos) == Accept <==> AbsenceReads(steps, key, pos)
  {
    var steps := [Step(ChunkOf(H, t), 0)] + rest;
    assert steps[1..] == rest && steps[0].chunk.ShortC?;
    if rest != [] {
      assert Verified(H, R, rest, [], H(ChunkOf(H, t)), key, pos) == Reject;
    }
  }

  lemma AbsenceAtFull(H: ChunkHash, R: Casts, t: Tree, i: Nibble, rest: seq<Step>, key: Bytes, pos: nat)
    requires t.Full? && |t.kids| == WIDTH
    requires i == END ==> rest == [] && ValueIn(R, ChunkOf(H, t.kids[END])) == []
    ensures var steps := [Step(ChunkOf(H, t), i)] + rest;
            && (i < END ==>
                  Verified(H, R, steps, [], H(ChunkOf(H, t)), key, pos)
                      == Verified(H, R, rest, [], H(ChunkOf(H, t.kids[i])), key, pos + 1))
            && (i == END ==> Verified(H, R, steps, [], H(ChunkOf(H, t)), key, pos) == Accept)
  {
    assert ([Step(ChunkOf(H, t), i)] + rest)[1..] == rest;
  }

  lemma AbsenceShift(head: Step, rest: seq<Step>, key: Bytes, pos: nat)
    requires head.chunk.FullC?
    ensures AbsenceReads([head] + rest, key, pos) <==> AbsenceReads(rest, key, pos + 1)
  {
    var steps := [head] + rest;
    assert forall i :: 0 <= i < |rest| ==> steps[i + 1] == rest[i];
    assert forall i :: 0 < i < |steps| ==> steps[i] == rest[i - 1];
  }

  /** For instance: with "B" as the only key, the honest proof that "A" is absent is rejected. */
  lemma AbsenceProofIsRejected(H: ChunkHash, R: Casts, v: Bytes)
    ensures var t := Short([4, 2, END], Value(v));
            && Hex([66]) == t.key && Lookup(t, Hex([65])) == None
            && Verified(H, R, ProofOf(H, t, Hex([65])), [], H(ChunkOf(H, t)), [65], 0) == Reject
  {
    var t := Short([4, 2, END], Value(v));
    assert Hex([66]) == [4, 2, END] && Hex([65]) == [4, 1, END];
    var s := Hex([65]);
    assert s[..3][1] == 1;
    assert ProofOf(H, t, s) == [Step(ChunkOf(H, t), 0)];
    assert !BytesStartWith([65], 0, t.key);
  }
}
