/** Range scans of the B+-tree (ledger/qldb/ql_btree.cc). The scan of an inner node that is not the last of
    its level can fall through to the `_INFI_` node of the level below, which belongs to another parent. */
module BTreeRange {
  import opened Options
  import opened BTreeEntries
  import opened BTreeNodes
  import opened BTree

  type Result = map<int, Value>

  /** Every entry of `es` is one of the tree's. */
  ghost predicate Among(es: seq<Entry>, whole: seq<Entry>) {
    forall i :: 0 <= i < |es| ==> Lookup(whole, es[i].key) == Some(es[i].val)
  }

  /** The result holds nothing but entries of the tree in the range. */
  ghost predicate Sound(result: Result, whole: seq<Entry>, start: int, end: int) {
    forall k :: k in result ==> start <= k <= end && Lookup(whole, k) == Some(result[k])
  }

  ghost predicate Covered(es: seq<Entry>, result: Result, start: int, end: int) {
    forall i :: 0 <= i < |es| && start <= es[i].key <= end ==> es[i].key in result
  }

  ghost predicate LastOfLevel(db: Store, level: nat) {
    Id(level, Infi) in db && exists lo :: Node(db, NONE, db[Id(level, Infi)], level, lo, Infi)
  }

  /** The last node of every level below `level` is stored, well-formed, and part of the tree. */
  ghost predicate Spine(db: Store, level: nat, whole: seq<Entry>) {
    level == 0 ||
    (&& LastOfLevel(db, level - 1)
     && Among(EntriesAt(db, NONE, level - 1, Infi), whole) && Spine(db, level - 1, whole))
  }

  lemma AmongWhole(whole: seq<Entry>)
    requires Sorted(whole)
    ensures Among(whole, whole)
  {
    forall i | 0 <= i < |whole| ensures Lookup(whole, whole[i].key) == Some(whole[i].val) { LookupAt(whole, i); }
  }

  /** A child's entries are among its parent's. */
  lemma KidAmong(db: Store, level: nat, kids: seq<Bound>, i: nat, whole: seq<Entry>)
    requires i < |kids| && Among(KidEntries(db, NONE, level, kids), whole)
    ensures Among(EntriesAt(db, NONE, level, kids[i]), whole)
  {
    var k1, name, k2 := kids[..i], kids[i], kids[i + 1..];
    var a, b, c := KidEntries(db, NONE, level, k1), EntriesAt(db, NONE, level, name), KidEntries(db, NONE, level, k2);
    assert kids == k1 + ([name] + k2);
    EntriesConcat(db, NONE, level, k1, [name] + k2);
    EntriesConcat(db, NONE, level, [name], k2);
    OneKid(db, NONE, level, name);
    forall j | 0 <= j < |b| ensures Lookup(whole, b[j].key) == Some(b[j].val) {
      assert (a + (b + c))[|a| + j] == b[j];
    }
  }

  lemma {:induction false} SpineOf(db: Store, c: Chunk, level: nat, lo: Bound, whole: seq<Entry>)
    requires Node(db, NONE, c, level, lo, Infi) && Among(Entries(db, NONE, c, level), whole)
    ensures Spine(db, level, whole)
    decreases level
  {
    if c.Meta? {
      var n := |c.keys|;
      assert Kids(c)[n] == Infi;
      KidAmong(db, level - 1, Kids(c), n, whole);
      SplitAt(db, NONE, level - 1, Kids(c), c.elems, n, lo);
      SpineOf(db, db[Id(level - 1, Infi)], level - 1, LastOr(Kids(c)[..n], lo), whole);
    }
  }

  /** `FindKey`: the scan of a leaf, which stops at the first key past the range. */
  method FindKey(es: seq<Entry>, start: int, end: int, result: Result, ghost whole: seq<Entry>) returns (found: Result)
    requires Sorted(es) && Among(es, whole) && Sound(result, whole, start, end)
    ensures Sound(found, whole, start, end) && result.Keys <= found.Keys && Covered(es, found, start, end)
  {
    found := result;
    for i := 0 to |es|
      invariant Sound(found, whole, start, end) && result.Keys <= found.Keys && Covered(es[..i], found, start, end)
    {
      if !(es[i].key < start) && !(es[i].key > end) {
        if es[i].key !in found {
          found := found[es[i].key := es[i].val];
        }
      } else if es[i].key > end {
        assert Covered(es, found, start, end) by {
          forall j | 0 <= j < |es| && start <= es[j].key <= end
            ensures es[j].key in found
          {
            assert es[j] == es[..i][j];
          }
        }
        return;
      }
      assert es[..i + 1] == es[..i] + [es[i]];
    }
    assert es[..|es|] == es;
  }

  /** The first `n` children, if there are so many, have been scanned. */
  ghost predicate Scanned(db: Store, level: nat, kids: seq<Bound>, n: nat, result: Result, start: int, end: int) {
    Covered(KidEntries(db, NONE, level, kids[..if n < |kids| then n else |kids|]), result, start, end)
  }

  lemma ScannedBefore(db: Store, c: Chunk, level: nat, lo: Bound, hi: Bound, from: nat, result: Result, start: int,
                      end: int)
    requires Node(db, NONE, c, level, lo, hi) && c.Meta? && IsIndex(c.keys, start, from)
    ensures Scanned(db, level - 1, Kids(c), from, result, start, end)
  {
    var n := from;
    assert Kids(c) == Kids(c)[..n] + Kids(c)[n..] && c.elems == c.elems[..n] + c.elems[n..];
    KidsConcat(db, NONE, level - 1, Kids(c)[..n], c.elems[..n], Kids(c)[n..], c.elems[n..], lo);
    if n > 0 {
      AllBelow(db, NONE, level - 1, Kids(c)[..n], c.elems[..n], lo, start);
    }
  }

  lemma ScannedOne(db: Store, level: nat, kids: seq<Bound>, i: nat, result: Result, found: Result, start: int, end: int)
    requires Scanned(db, level, kids, i, result, start, end) && result.Keys <= found.Keys
    requires i < |kids| ==> Covered(EntriesAt(db, NONE, level, kids[i]), found, start, end)
    ensures Scanned(db, level, kids, i + 1, found, start, end)
  {
    if i < |kids| {
      assert kids[..i + 1] == kids[..i] + [kids[i]];
      EntriesConcat(db, NONE, level, kids[..i], [kids[i]]);
      OneKid(db, NONE, level, kids[i]);
    }
  }

  /** Once the child for `end` is scanned, the remaining ones are past the range. */
  lemma ScannedAfter(db: Store, c: Chunk, level: nat, lo: Bound, hi: Bound, last: nat, result: Result, start: int,
                     end: int)
    requires Node(db, NONE, c, level, lo, hi) && c.Meta? && IsIndex(c.keys, end, last)
    requires Scanned(db, level - 1, Kids(c), last + 1, result, start, end)
    ensures Covered(Entries(db, NONE, c, level), result, start, end)
  {
    if last < |Kids(c)| {
      RestIsPast(db, level - 1, Kids(c), c.elems, lo, last, result, start, end);
    } else {
      assert Kids(c)[..|Kids(c)|] == Kids(c);
    }
  }

  lemma RestIsPast(db: Store, level: nat, kids: seq<Bound>, elems: seq<nat>, lo: Bound, last: nat, result: Result,
                   start: int, end: int)
    requires KidNodes(db, NONE, level, kids, elems, lo) && last < |kids| <= |elems| && Leq(At(end), kids[last])
    requires Scanned(db, level, kids, last + 1, result, start, end)
    ensures Covered(KidEntries(db, NONE, level, kids), result, start, end)
  {
    var n := last + 1;
    var k1, k2, e1, e2 := kids[..n], kids[n..], elems[..n], elems[n..];
    assert kids == k1 + k2 && elems == e1 + e2;
    KidsConcat(db, NONE, level, k1, e1, k2, e2, lo);
    AllAbove(db, NONE, level, k2, e2, kids[last], end);
    EntriesConcat(db, NONE, level, k1, k2);
  }

  /** The child that the scan visits at `i` is a well-formed part of the tree, in its own parent or not. */
  lemma ChildAt(db: Store, c: Chunk, level: nat, lo: Bound, hi: Bound, i: nat, whole: seq<Entry>) returns (from: Bound)
    requires Node(db, NONE, c, level, lo, hi) && c.Meta? && i <= |c.keys|
    requires Among(Entries(db, NONE, c, level), whole) && Spine(db, level, whole)
    ensures var id := Id(level - 1, if i == |c.keys| then Infi else At(c.keys[i]));
            && id in db && Node(db, NONE, db[id], level - 1, from, id.name)
            && Among(EntriesAt(db, NONE, level - 1, id.name), whole)
            && (i < |Kids(c)| ==> Kids(c)[i] == id.name)
  {
    if i < |Kids(c)| {
      KidAmong(db, level - 1, Kids(c), i, whole);
      SplitAt(db, NONE, level - 1, Kids(c), c.elems, i, lo);
      from := LastOr(Kids(c)[..i], lo);
    } else {
      from :| Node(db, NONE, db[Id(level - 1, Infi)], level - 1, from, Infi);
    }
  }

  /** `TryRange` on node `c`: everything of the node that is in the range, and nothing that is not in the
      range of the whole tree. */
  method TryRange(db: Store, c: Chunk, start: int, end: int, result: Result, ghost level: nat, ghost lo: Bound,
                  ghost hi: Bound, ghost whole: seq<Entry>) returns (found: Result)
    requires Node(db, NONE, c, level, lo, hi) && Among(Entries(db, NONE, c, level), whole) && Spine(db, level, whole)
    requires Sound(result, whole, start, end)
    ensures Sound(found, whole, start, end) && result.Keys <= found.Keys
    ensures Covered(Entries(db, NONE, c, level), found, start, end)
    decreases level, 1
  {
    if c.Leaf? {
      found := FindKey(c.entries, start, end, result, whole);
      return;
    }
    KeysAscend(db, NONE, c, level, lo, hi);
    var from := BinarySearch(c.keys, start, 0, |c.keys|);
    var last := BinarySearch(c.keys, end, 0, |c.keys|);
    found := result;
    ScannedBefore(db, c, level, lo, hi, from, found, start, end);
    ScannedNone(db, c, level, from, last, found, start, end);
    var i := from;
    while i <= last
      invariant i <= last + 1 || from > last
      invariant Sound(found, whole, start, end) && result.Keys <= found.Keys
      invariant Scanned(db, level - 1, Kids(c), if from <= last then i else last + 1, found, start, end)
    {
      found := Visit(db, c, i, start, end, found, level, lo, hi, whole);
      i := i + 1;
    }
    ScannedAfter(db, c, level, lo, hi, last, found, start, end);
  }

  /** One turn of the scan of an inner node. */
  method Visit(db: Store, c: Chunk, i: nat, start: int, end: int, result: Result, ghost level: nat, ghost lo: Bound,
               ghost hi: Bound, ghost whole: seq<Entry>) returns (found: Result)
    requires Node(db, NONE, c, level, lo, hi) && c.Meta? && i <= |c.keys|
    requires Among(Entries(db, NONE, c, level), whole) && Spine(db, level, whole)
    requires Sound(result, whole, start, end) && Scanned(db, level - 1, Kids(c), i, result, start, end)
    ensures Sound(found, whole, start, end) && result.Keys <= found.Keys
    ensures Scanned(db, level - 1, Kids(c), i + 1, found, start, end)
    decreases level, 0
  {
    var child := Id(c.level - 1, if i == |c.keys| then Infi else At(c.keys[i]));
    ghost var mid := ChildAt(db, c, level, lo, hi, i, whole);
    found := TryRange(db, db[child], start, end, result, level - 1, mid, child.name, whole);
    ScannedOne(db, level - 1, Kids(c), i, result, found, start, end);
  }

  /** An empty range visits nothing, and there is nothing to find. */
  lemma ScannedNone(db: Store, c: Chunk, level: nat, from: nat, last: nat, result: Result, start: int, end: int)
    requires c.Meta? && |c.elems| == |c.keys| + 1 && level > 0 && IsIndex(c.keys, start, from)
               && IsIndex(c.keys, end, last)
    ensures from > last ==> end < start && Scanned(db, level - 1, Kids(c), last + 1, result, start, end)
  {
    if from > last { assert c.keys[last] < start; }
  }

  /** `Range`: exactly the stored entries with keys in the range. */
  method Range(tree: QLBTree, start: int, end: int) returns (found: Result)
    requires tree.Valid()
    ensures forall k :: k in found <==> start <= k <= end && Lookup(tree.Contents(), k).Some?
    ensures forall k :: k in found ==> Lookup(tree.Contents(), k) == Some(found[k])
  {
    ghost var whole := tree.Contents();
    NodeEntries(tree.db, NONE, tree.root, tree.depth, NegInf, Infi);
    AmongWhole(whole);
    SpineOf(tree.db, tree.root, tree.depth, NegInf, whole);
    found := TryRange(tree.db, tree.root, start, end, map[], tree.depth, NegInf, Infi, whole);
    forall k | start <= k <= end && Lookup(whole, k).Some? ensures k in found { FoundAt(whole, k); }
  }

  lemma {:induction false} FoundAt(es: seq<Entry>, k: int)
    requires Lookup(es, k).Some?
    ensures exists i :: 0 <= i < |es| && es[i].key == k
  {
    if es[0].key != k {
      FoundAt(es[1..], k);
      var i :| 0 <= i < |es[1..]| && es[1..][i].key == k;
      assert es[i + 1].key == k;
    }
  }
}
