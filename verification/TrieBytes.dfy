/** The bytes of trie nodes (ledger/ledgerdb/mpt/mpt_node.cc). */
module TrieBytes {
  import opened Codec

  const FULL: Byte := 0
  const HASH: Byte := 2
  const VALUE: Byte := 3
  const NIL: Byte := 4

  const HASH_BYTES := 20
  const REF_BYTES := 25
  const LAST := 16

  function HashNode(hash: Bytes): Bytes { Chunk(HASH, hash) }

  function Join(nodes: seq<Bytes>): Bytes {
    if nodes == [] then [] else nodes[0] + Join(nodes[1..])
  }

  lemma {:induction false} JoinConcat(a: seq<Bytes>, b: seq<Bytes>)
    ensures Join(a + b) == Join(a) + Join(b)
  {
    if a == [] {
      assert a + b == b;
    } else {
      assert (a + b)[1..] == a[1..] + b;
      JoinConcat(a[1..], b);
    }
  }

  lemma {:induction false} JoinLength(nodes: seq<Bytes>)
    requires forall i :: 0 <= i < |nodes| ==> |nodes[i]| == REF_BYTES
    ensures |Join(nodes)| == REF_BYTES * |nodes|
  {
    if nodes != [] { JoinLength(nodes[1..]); }
  }

  /** The bytes before child `i`, the child, and the bytes after it. */
  lemma JoinAround(nodes: seq<Bytes>, i: nat)
    requires i < |nodes|
    ensures Join(nodes) == Join(nodes[..i]) + (nodes[i] + Join(nodes[i + 1..]))
  {
    var a, node, b := nodes[..i], nodes[i], nodes[i + 1..];
    assert nodes == a + ([node] + b) by { CutAt(nodes, i); }
    JoinThree(a, node, b);
  }

  lemma CutAt(nodes: seq<Bytes>, i: nat)
    requires i < |nodes|
    ensures nodes == nodes[..i] + ([nodes[i]] + nodes[i + 1..])
  {
  }

  lemma JoinThree(a: seq<Bytes>, node: Bytes, b: seq<Bytes>)
    ensures Join(a + ([node] + b)) == Join(a) + (node + Join(b))
  {
    JoinConcat(a, [node] + b);
    JoinCons(node, b);
  }

  lemma JoinCons(node: Bytes, nodes: seq<Bytes>)
    ensures Join([node] + nodes) == node + Join(nodes)
  {
    assert ([node] + nodes)[1..] == nodes;
  }

  /** A chunk whose header tells its size. */
  predicate IsChunk(c: Bytes) { |c| >= META_LENGTH && NumBytes(c, 0) == |c| }

  /** Sixteen hash nodes, and a last child of any size. */
  ghost predicate AreChildren(nodes: seq<Bytes>) {
    && |nodes| == LAST + 1
    && (forall i :: 0 <= i < |nodes| ==> IsChunk(nodes[i]))
    && (forall i :: 0 <= i < LAST ==> |nodes[i]| == REF_BYTES)
  }

  /** `| num elements (8) | hash node (25) | .. | last child |` */
  function EncodeFull(count: nat, nodes: seq<Bytes>): Bytes {
    Chunk(FULL, Le(count, U64) + Join(nodes))
  }

  /** Where child `i` starts. */
  function Offset(i: nat): nat { META_LENGTH + U64 + REF_BYTES * i }

  lemma PrefixLength(nodes: seq<Bytes>, i: nat)
    requires AreChildren(nodes) && i <= LAST
    ensures |Join(nodes[..i])| == REF_BYTES * i
  {
    JoinLength(nodes[..i]);
  }

  /** `getChildAtIndex`: the chunk that starts at the child's offset, as long as its own header says. */
  function ChildAt(chunk: Bytes, i: nat): Bytes { At(chunk, Offset(i), NumBytes(chunk, Offset(i))) }

  lemma HeaderAt(a: Bytes, c: Bytes, b: Bytes)
    requires IsChunk(c)
    ensures NumBytes(a + (c + b), |a|) == |c| && At(a + (c + b), |a|, |c|) == c
  {
    assert (a + (c + b))[|a|..|a| + U32] == c[0..U32];
  }

  /** The number of elements below a child. */
  function ElemsOf(chunk: Bytes): nat
    requires |chunk| >= META_LENGTH
  {
    if chunk[U32] == NIL then 0 else if chunk[U32] == VALUE then 1 else IntAt(chunk, META_LENGTH, U64)
  }

  method Memcpy(dst: array<Byte>, at: nat, src: Bytes)
    requires at + |src| <= dst.Length
    modifies dst
    ensures dst[..at + |src|] == old(dst[..at]) + src
  {
    for k := 0 to |src|
      invariant dst[..at] == old(dst[..at])
      invariant forall j :: 0 <= j < k ==> dst[at + j] == src[j]
    {
      dst[at + k] := src[k];
    }
  }

  /** Parts written one after the other into a new buffer of the given size. */
  method WriteParts(parts: seq<Bytes>, size: nat) returns (out: array<Byte>)
    requires |Join(parts)| == size
    ensures fresh(out) && out[..] == Join(parts)
  {
    out := new Byte[size](_ => 0);
    var offset := 0;
    assert parts[..0] == [];
    for i := 0 to |parts|
      invariant offset == |Join(parts[..i])| <= size && out[..offset] == Join(parts[..i])
    {
      JoinMore(parts, i);
      Memcpy(out, offset, parts[i]);
      offset := offset + |parts[i]|;
    }
    assert parts[..|parts|] == parts;
  }

  lemma JoinMore(parts: seq<Bytes>, i: nat)
    requires i < |parts|
    ensures Join(parts[..i + 1]) == Join(parts[..i]) + parts[i] && |Join(parts[..i + 1])| <= |Join(parts)|
  {
    assert parts[..i + 1] == parts[..i] + [parts[i]] && parts == parts[..i + 1] + parts[i + 1..];
    JoinConcat(parts[..i], [parts[i]]);
    JoinOne(parts[i]);
    JoinConcat(parts[..i + 1], parts[i + 1..]);
  }

  /** The bytes of a full node around child `i`. */
  lemma Layout(count: nat, nodes: seq<Bytes>, i: nat)
    requires AreChildren(nodes) && i <= LAST
    ensures var chunk, before, after := EncodeFull(count, nodes), Join(nodes[..i]), Join(nodes[i + 1..]);
            && Offset(i) + |nodes[i]| <= |chunk| && Offset(i) == META_LENGTH + U64 + |before|
            && chunk == Le(|chunk|, U32) + [FULL] + Le(count, U64) + (before + (nodes[i] + after))
            && chunk[META_LENGTH + U64..Offset(i)] == before && chunk[Offset(i) + |nodes[i]|..] == after
            && (i == LAST ==> after == [])
  {
    JoinAround(nodes, i);
    PrefixLength(nodes, i);
    var chunk, before, after := EncodeFull(count, nodes), Join(nodes[..i]), Join(nodes[i + 1..]);
    var head := Le(|chunk|, U32) + [FULL] + Le(count, U64);
    assert |head| == META_LENGTH + U64;
    assert chunk == head + (before + (nodes[i] + after));
    SliceOut(head, before, nodes[i], after);
  }

  lemma SliceOut(head: Bytes, before: Bytes, mid: Bytes, after: Bytes)
    ensures var c := head + (before + (mid + after));
            c[|head|..|head| + |before|] == before && c[|head| + |before| + |mid|..] == after
  {
    var c := head + (before + (mid + after));
    assert c == (head + before) + (mid + after) && c == (head + before + mid) + after;
  }

  /** Reading a child back gives the child that was encoded, and reading the count gives the count. */
  lemma ChildReadBack(count: nat, nodes: seq<Bytes>, i: nat)
    requires AreChildren(nodes) && i <= LAST
    ensures ChildAt(EncodeFull(count, nodes), i) == nodes[i]
    ensures Codec.Fits(count, U64) ==> IntAt(EncodeFull(count, nodes), META_LENGTH, U64) == count
  {
    Layout(count, nodes, i);
    var chunk, before, after := EncodeFull(count, nodes), Join(nodes[..i]), Join(nodes[i + 1..]);
    var head := Le(|chunk|, U32) + [FULL];
    assert chunk == head + Le(count, U64) + before + (nodes[i] + after) by {
      Regroup(head + Le(count, U64), before, nodes[i] + after);
    }
    HeaderAt(head + Le(count, U64) + before, nodes[i], after);
    if Codec.Fits(count, U64) { CountAt(head, count, before + (nodes[i] + after)); }
  }

  lemma Regroup(a: Bytes, b: Bytes, c: Bytes)
    ensures a + (b + c) == a + b + c
  {
  }

  lemma CountAt(head: Bytes, count: nat, rest: Bytes)
    requires |head| == META_LENGTH && Codec.Fits(count, U64)
    ensures IntAt(head + Le(count, U64) + rest, META_LENGTH, U64) == count
  {
    assert (head + Le(count, U64) + rest)[META_LENGTH..META_LENGTH + U64] == Le(count, U64);
    FromLeOfLe(count, U64);
  }

  /** The chunk is a full node with that count and those children. */
  ghost predicate IsFull(chunk: Bytes, count: nat, nodes: seq<Bytes>) {
    AreChildren(nodes) && chunk == EncodeFull(count, nodes) && Codec.Fits(count, U64)
  }

  /** The full node with that child, or a reference to it by its hash, at `index`. */
  function Changed(count: nat, nodes: seq<Bytes>, index: nat, child: Bytes, hash: Bytes): Bytes
    requires index < |nodes|
  {
    EncodeFull(count, nodes[index := if index == LAST then child else HashNode(hash)])
  }

  /** `setChildAtIndex`: the bytes around the child are copied and the child is replaced, which is the encoding
      of the changed list of children with the changed count. */
  method SetChildAtIndex(chunk: Bytes, index: nat, child: Bytes, oldChild: Bytes, hash: Bytes, ghost count: nat,
                         ghost nodes: seq<Bytes>)
    returns (out: array<Byte>)
    requires index <= LAST && |hash| == HASH_BYTES && IsChunk(child) && IsChunk(oldChild)
    requires IsFull(chunk, count, nodes) && ElemsOf(oldChild) <= count
    ensures fresh(out)
    ensures out[..] == Changed(count + ElemsOf(child) - ElemsOf(oldChild), nodes, index, child, hash)
  {
    AroundChild(count, nodes, index);
    var numElem := IntAt(chunk, META_LENGTH, U64) + ElemsOf(child) - ElemsOf(oldChild);
    var value := if index == LAST then child else HashNode(hash);
    out := SpliceBytes(chunk, index, value, numElem, count, nodes);
  }

  /** The copies: the bytes before the child, the new child, and the bytes after it. */
  method SpliceBytes(chunk: Bytes, index: nat, value: Bytes, numElem: nat, ghost count: nat, ghost nodes: seq<Bytes>)
    returns (out: array<Byte>)
    requires index <= LAST && AreChildren(nodes) && chunk == EncodeFull(count, nodes)
    requires index < LAST ==> |value| == REF_BYTES
    ensures fresh(out) && out[..] == EncodeFull(numElem, nodes[index := value])
  {
    AroundChild(count, nodes, index);
    var size := |chunk| + |value| - |ChildAt(chunk, index)|;
    var before := chunk[META_LENGTH + U64..Offset(index)];
    var rest := if index < LAST then chunk[Offset(index + 1)..] else [];
    Spliced(nodes, index, value, numElem, size);
    out := WriteParts([Le(size, U32), [FULL], Le(numElem, U64), before, value, rest], size);
  }

  /** What the copies read from the old chunk. */
  lemma AroundChild(count: nat, nodes: seq<Bytes>, index: nat)
    requires AreChildren(nodes) && index <= LAST
    ensures var chunk := EncodeFull(count, nodes);
            && META_LENGTH + U64 <= Offset(index) <= |chunk| && |chunk| == META_LENGTH + U64 + |Join(nodes)|
            && |chunk| >= |nodes[index]| && ChildAt(chunk, index) == nodes[index]
            && chunk[META_LENGTH + U64..Offset(index)] == Join(nodes[..index])
            && (index < LAST ==> Offset(index + 1) <= |chunk| && chunk[Offset(index + 1)..] == Join(nodes[index + 1..]))
            && (index == LAST ==> Join(nodes[index + 1..]) == [])
            && (Codec.Fits(count, U64) ==> IntAt(chunk, META_LENGTH, U64) == count)
  {
    ChildReadBack(count, nodes, index);
    Layout(count, nodes, index);
  }

  lemma Spliced(nodes: seq<Bytes>, index: nat, value: Bytes, count: nat, size: nat)
    requires AreChildren(nodes) && index <= LAST
    requires size == META_LENGTH + U64 + |Join(nodes)| + |value| - |nodes[index]|
    ensures var parts := [Le(size, U32), [FULL], Le(count, U64), Join(nodes[..index]), value, Join(nodes[index + 1..])];
            |Join(parts)| == size && Join(parts) == EncodeFull(count, nodes[index := value])
  {
    var nodes' := nodes[index := value];
    JoinAround(nodes, index);
    JoinAround(nodes', index);
    assert nodes'[..index] == nodes[..index] && nodes'[index + 1..] == nodes[index + 1..];
    JoinSix(Le(size, U32), [FULL], Le(count, U64), Join(nodes[..index]), value, Join(nodes[index + 1..]));
  }

  lemma JoinOne(a: Bytes)
    ensures Join([a]) == a
  {
    assert Join([a]) == a + Join([a][1..]);
    assert a + [] == a;
  }

  lemma JoinSix(a: Bytes, b: Bytes, c: Bytes, d: Bytes, e: Bytes, f: Bytes)
    ensures Join([a, b, c, d, e, f]) == a + b + (c + (d + (e + f)))
  {
    assert Join([e, f]) == e + f by { assert [e, f][1..] == [f]; JoinOne(f); }
    assert Join([c, d, e, f]) == c + (d + (e + f)) by {
      assert [c, d, e, f][1..] == [d, e, f] && [d, e, f][1..] == [e, f];
    }
    assert [a, b, c, d, e, f][1..] == [b, c, d, e, f] && [b, c, d, e, f][1..] == [c, d, e, f];
  }
}

/** The stored nodes of the trie as bytes, and the splice as the change of child that the trie makes. */
module TrieEncoding {
  import opened Codec
  import opened Hashing
  import opened Nibbles
  import opened TrieBytes
  import TrieTree
  import TrieStore

  const SHORT: Byte := 1

  /** A node's bytes, given the twenty bytes of each hash. */
  function Encoded(D: Digest -> Bytes, c: TrieStore.Chunk): Bytes {
    match c
    case NilC => Chunk(NIL, [])
    case ValueC(v) => Chunk(VALUE, v)
    case HashC(h) => HashNode(D(h))
    case ShortC(count, key, child) =>
      var k: Bytes := key;
      Chunk(SHORT, Le(count, U64) + Le(|key|, U32) + k + Encoded(D, child))
    case FullC(count, kids) => EncodeFull(count, EncodedKids(D, kids))
  }

  function EncodedKids(D: Digest -> Bytes, kids: seq<TrieStore.Chunk>): seq<Bytes> {
    seq(|kids|, i requires 0 <= i < |kids| => Encoded(D, kids[i]))
  }

  /** The node after `setChildAtIndex`, in bytes: what `TrieBytes.SetChildAtIndex` writes. */
  lemma SpliceIsSetChild(D: Digest -> Bytes, H: TrieStore.ChunkHash, c: TrieStore.Chunk, index: Nibble,
                         child: TrieStore.Chunk, oldChild: TrieStore.Chunk)
    requires c.FullC? && |c.kids| == TrieTree.WIDTH && TrieStore.CountOf(oldChild) <= c.count
    ensures Encoded(D, TrieStore.SetChild(H, c, index, child, oldChild))
         == Changed(c.count + TrieStore.CountOf(child) - TrieStore.CountOf(oldChild), EncodedKids(D, c.kids), index,
                    Encoded(D, child), D(H(child)))
  {
    var after := TrieStore.SetChild(H, c, index, child, oldChild);
    assert EncodedKids(D, after.kids)
        == EncodedKids(D, c.kids)[index := if index == LAST then Encoded(D, child) else HashNode(D(H(child)))];
  }

  /** The count that the splice reads from a child is the child's count. */
  lemma ElemsOfEncoded(D: Digest -> Bytes, c: TrieStore.Chunk)
    requires !c.HashC? && Codec.Fits(TrieStore.CountOf(c), U64)
    ensures |Encoded(D, c)| >= META_LENGTH && ElemsOf(Encoded(D, c)) == TrieStore.CountOf(c)
  {
    if c.ShortC? || c.FullC? {
      assert Encoded(D, c)[META_LENGTH..META_LENGTH + U64] == Le(c.count, U64);
      FromLeOfLe(c.count, U64);
    }
  }

  /** A node whose size fits its header is a chunk. */
  lemma EncodedIsChunk(D: Digest -> Bytes, c: TrieStore.Chunk)
    requires Codec.Fits(|Encoded(D, c)|, U32)
    ensures IsChunk(Encoded(D, c))
  {
    var kind, data := KindOf(c), DataOf(D, c);
    assert Encoded(D, c) == Chunk(kind, data);
    assert Chunk(kind, data)[0..U32] == Le(META_LENGTH + |data|, U32);
    FromLeOfLe(META_LENGTH + |data|, U32);
  }

  function KindOf(c: TrieStore.Chunk): Byte {
    match c
    case NilC => NIL
    case ValueC(_) => VALUE
    case HashC(_) => HASH
    case ShortC(_, _, _) => SHORT
    case FullC(_, _) => FULL
  }

  function DataOf(D: Digest -> Bytes, c: TrieStore.Chunk): Bytes {
    match c
    case NilC => []
    case ValueC(v) => v
    case HashC(h) => D(h)
    case ShortC(count, key, child) =>
      var k: Bytes := key;
      Le(count, U64) + Le(|key|, U32) + k + Encoded(D, child)
    case FullC(count, kids) => Le(count, U64) + Join(EncodedKids(D, kids))
  }

  /** Sixteen references, and a last child whose size fits. */
  ghost predicate IsFullNode(D: Digest -> Bytes, c: TrieStore.Chunk) {
    && c.FullC? && |c.kids| == TrieTree.WIDTH && (forall i :: 0 <= i < LAST ==> c.kids[i].HashC?)
    && Codec.Fits(|Encoded(D, c.kids[LAST])|, U32)
  }

  lemma EncodedChildren(D: Digest -> Bytes, c: TrieStore.Chunk)
    requires IsFullNode(D, c) && forall h :: |D(h)| == HASH_BYTES
    ensures AreChildren(EncodedKids(D, c.kids))
  {
    var nodes := EncodedKids(D, c.kids);
    forall i | 0 <= i < |nodes| ensures IsChunk(nodes[i]) && (i < LAST ==> |nodes[i]| == REF_BYTES) {
      assert nodes[i] == Encoded(D, c.kids[i]);
      if i < LAST { assert |nodes[i]| == REF_BYTES; }
      EncodedIsChunk(D, c.kids[i]);
    }
  }

  lemma EncodedChild(D: Digest -> Bytes, c: TrieStore.Chunk)
    requires !c.HashC? && Codec.Fits(|Encoded(D, c)|, U32) && Codec.Fits(TrieStore.CountOf(c), U64)
    ensures IsChunk(Encoded(D, c)) && ElemsOf(Encoded(D, c)) == TrieStore.CountOf(c)
  {
    EncodedIsChunk(D, c);
    ElemsOfEncoded(D, c);
  }

  /** The byte splice of a stored full node writes the bytes of the node that the trie's insertion makes of it. */
  method SpliceNode(D: Digest -> Bytes, H: TrieStore.ChunkHash, c: TrieStore.Chunk, index: Nibble,
                    child: TrieStore.Chunk, oldChild: TrieStore.Chunk) returns (out: array<Byte>)
    requires IsFullNode(D, c) && (forall h :: |D(h)| == HASH_BYTES) && !child.HashC? && !oldChild.HashC?
    requires Codec.Fits(|Encoded(D, child)|, U32) && Codec.Fits(|Encoded(D, oldChild)|, U32)
    requires Codec.Fits(c.count, U64) && Codec.Fits(TrieStore.CountOf(child), U64)
    requires TrieStore.CountOf(oldChild) <= c.count
    ensures fresh(out) && out[..] == Encoded(D, TrieStore.SetChild(H, c, index, child, oldChild))
  {
    SpliceGives(D, H, c, index, child, oldChild);
    out := SpliceTo(Encoded(D, c), index, Encoded(D, child), Encoded(D, oldChild), D(H(child)), c.count,
                    TrieStore.CountOf(child), TrieStore.CountOf(oldChild), EncodedKids(D, c.kids),
                    Encoded(D, TrieStore.SetChild(H, c, index, child, oldChild)));
  }

  /** `setChildAtIndex` may be called with these arguments, and gives `after`. */
  ghost predicate Gives(chunk: Bytes, index: Nibble, child: Bytes, oldChild: Bytes, hash: Bytes, count: nat, more: nat,
                        less: nat, nodes: seq<Bytes>, after: Bytes)
  {
    && |hash| == HASH_BYTES && IsFull(chunk, count, nodes)
    && IsChunk(child) && IsChunk(oldChild) && ElemsOf(child) == more && ElemsOf(oldChild) == less <= count
    && after == Changed(count + more - less, nodes, index, child, hash)
  }

  lemma SpliceGives(D: Digest -> Bytes, H: TrieStore.ChunkHash, c: TrieStore.Chunk, index: Nibble,
                    child: TrieStore.Chunk, oldChild: TrieStore.Chunk)
    requires IsFullNode(D, c) && (forall h :: |D(h)| == HASH_BYTES) && !child.HashC? && !oldChild.HashC?
    requires Codec.Fits(|Encoded(D, child)|, U32) && Codec.Fits(|Encoded(D, oldChild)|, U32)
    requires Codec.Fits(c.count, U64) && Codec.Fits(TrieStore.CountOf(child), U64)
    requires TrieStore.CountOf(oldChild) <= c.count
    ensures Gives(Encoded(D, c), index, Encoded(D, child), Encoded(D, oldChild), D(H(child)), c.count,
                  TrieStore.CountOf(child), TrieStore.CountOf(oldChild), EncodedKids(D, c.kids),
                  Encoded(D, TrieStore.SetChild(H, c, index, child, oldChild)))
  {
    EncodedFull(D, c);
    EncodedChild(D, child);
    EncodedChild(D, oldChild);
    SpliceIsSetChild(D, H, c, index, child, oldChild);
  }

  method SpliceTo(chunk: Bytes, index: Nibble, child: Bytes, oldChild: Bytes, hash: Bytes, ghost count: nat,
                  ghost more: nat, ghost less: nat, ghost nodes: seq<Bytes>, ghost after: Bytes)
    returns (out: array<Byte>)
    requires Gives(chunk, index, child, oldChild, hash, count, more, less, nodes, after)
    ensures fresh(out) && out[..] == after
  {
    out := SetChildAtIndex(chunk, index, child, oldChild, hash, count, nodes);
  }

  lemma EncodedFull(D: Digest -> Bytes, c: TrieStore.Chunk)
    requires IsFullNode(D, c) && (forall h :: |D(h)| == HASH_BYTES) && Codec.Fits(c.count, U64)
    ensures IsFull(Encoded(D, c), c.count, EncodedKids(D, c.kids))
  {
    EncodedChildren(D, c);
  }
}
