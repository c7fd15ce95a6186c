/** Lookup, insertion and commit of the B+-tree. */
module BTree {
  import opened Options
  import opened BTreeEntries
  import opened BTreeNodes

  datatype InsertResult = InsertResult(isSplit: bool, splitKey: int, level: nat, elems: seq<nat>)

  /** The names of the nodes that an insert leaves in place of the node named `hi`. */
  function NewNames(r: InsertResult, hi: Bound): seq<Bound> {
    if r.isSplit then [At(r.splitKey), hi] else [hi]
  }

  /** A node is no larger than its fanout. */
  predicate Sized(c: Chunk, fanout: nat, leafFanout: nat) {
    match c
    case Leaf(es, _) => |es| <= leafFanout
    case Meta(_, keys, _) => |keys| <= fanout
  }

  ghost predicate Bounded(m: Store, fanout: nat, leafFanout: nat) {
    forall id :: id in m ==> Sized(m[id], fanout, leafFanout)
  }

  /** What an insert into node `c` achieves: the one or two dirty nodes now in its place hold its entries
      with `k` set to `v`, and no dirty node outside its range has changed. */
  ghost predicate Inserted(db: Store, delta: Store, delta': Store, c: Chunk, level: nat, lo: Bound, hi: Bound, k: int,
                           v: Value, r: InsertResult)
  {
    && r.level == level && |r.elems| == |NewNames(r, hi)|
    && (forall n :: n in NewNames(r, hi) ==> Id(level, n) in delta')
    && KidNodes(db, delta', level, NewNames(r, hi), r.elems, lo)
    && KidEntries(db, delta', level, NewNames(r, hi)) == Put(Entries(db, delta, c, level), k, v)
    && OnlyIn(delta, delta', level, lo, hi)
  }

  ghost predicate SortedKeys(keys: seq<int>) {
    forall i, j :: 0 <= i < j < |keys| ==> keys[i] < keys[j]
  }

  /** The first index whose key is not below `key`. */
  ghost predicate IsIndex(keys: seq<int>, key: int, r: nat) {
    r <= |keys| && (forall i :: 0 <= i < r ==> keys[i] < key) && (r < |keys| ==> key <= keys[r])
  }

  /** `QLBTreeMeta::BinarySearch`: the descent may stop early, and the scan makes up for it. */
  method BinarySearch(keys: seq<int>, key: int, start: int, end: int) returns (r: nat)
    requires SortedKeys(keys) && 0 <= start <= |keys| && end <= |keys|
    requires forall i :: 0 <= i < start ==> keys[i] < key
    ensures IsIndex(keys, key, r)
    decreases end - start + |keys| + 2
  {
    if end <= start {
      r := start;
      while r < |keys| && key > keys[r]
        invariant r <= |keys| && forall i :: 0 <= i < r ==> keys[i] < key
      {
        r := r + 1;
      }
      return;
    }
    var pivot := (end + start) / 2;
    if key == keys[pivot] {
      r := pivot;
    } else if key < keys[pivot] {
      r := BinarySearch(keys, key, start, pivot - 1);
    } else {
      r := BinarySearch(keys, key, pivot + 1, end);
    }
  }

  lemma {:induction false} KidsAscend(db: Store, delta: Store, level: nat, kids: seq<Bound>, elems: seq<nat>, lo: Bound)
    requires KidNodes(db, delta, level, kids, elems, lo)
    ensures forall i :: 0 <= i < |kids| ==> Less(lo, kids[i])
    ensures forall i, j :: 0 <= i < j < |kids| ==> Less(kids[i], kids[j])
    decreases |kids|
  {
    if kids != [] {
      assert NodeAt(db, delta, level, kids[0], elems[0], lo);
      assert Node(db, delta, Get(db, delta, Id(level, kids[0])), level, lo, kids[0]);
      KidsAscend(db, delta, level, kids[1..], elems[1..], kids[0]);
    }
  }

  lemma KeysAscend(db: Store, delta: Store, c: Chunk, level: nat, lo: Bound, hi: Bound)
    requires Node(db, delta, c, level, lo, hi) && c.Meta?
    ensures SortedKeys(c.keys)
  {
    KidsAscend(db, delta, level - 1, Kids(c), c.elems, lo);
    forall i, j | 0 <= i < j < |c.keys| ensures c.keys[i] < c.keys[j] {
      assert Less(Kids(c)[i], Kids(c)[j]);
    }
  }

  /** The child that a search for `key` goes to, and its place among its siblings. */
  lemma ChildFor(db: Store, delta: Store, c: Chunk, level: nat, lo: Bound, hi: Bound, key: int, i: nat)
    requires Node(db, delta, c, level, lo, hi) && c.Meta? && Less(lo, At(key)) && Leq(At(key), hi)
               && IsIndex(c.keys, key, i)
    ensures i < |Kids(c)| && Kids(c)[i] == if i == |c.keys| then Infi else At(c.keys[i])
    ensures var k1, e1, name, k2, e2 := Kids(c)[..i], c.elems[..i], Kids(c)[i], Kids(c)[i + 1..], c.elems[i + 1..];
            && Less(LastOr(k1, lo), At(key)) && Leq(At(key), name)
            && Kids(c) == k1 + ([name] + k2) && c.elems == e1 + ([c.elems[i]] + e2)
            && KidNodes(db, delta, level - 1, k1, e1, lo)
                && NodeAt(db, delta, level - 1, name, c.elems[i], LastOr(k1, lo))
            && KidNodes(db, delta, level - 1, k2, e2, name)
  {
    ChildName(c, lo, hi, key, i);
    SplitAt(db, delta, level - 1, Kids(c), c.elems, i, lo);
  }

  lemma ChildName(c: Chunk, lo: Bound, hi: Bound, key: int, i: nat)
    requires c.Meta? && |c.elems| == |c.keys| + 1 && c.keys != [] && (c.elems[|c.keys|] > 0 <==> hi.Infi?)
    requires hi.At? ==> c.keys[|c.keys| - 1] == hi.key
    requires Less(lo, At(key)) && Leq(At(key), hi) && IsIndex(c.keys, key, i)
    ensures i < |Kids(c)| && Kids(c)[i] == if i == |c.keys| then Infi else At(c.keys[i])
    ensures Less(LastOr(Kids(c)[..i], lo), At(key)) && Leq(At(key), Kids(c)[i])
  {
  }

  lemma SplitAt(db: Store, delta: Store, level: nat, kids: seq<Bound>, elems: seq<nat>, i: nat, lo: Bound)
    requires KidNodes(db, delta, level, kids, elems, lo) && i < |kids| <= |elems|
    ensures var k1, e1, name, k2, e2 := kids[..i], elems[..i], kids[i], kids[i + 1..], elems[i + 1..];
            && kids == k1 + ([name] + k2) && elems == e1 + ([elems[i]] + e2)
            && KidNodes(db, delta, level, k1, e1, lo) && NodeAt(db, delta, level, name, elems[i], LastOr(k1, lo))
            && KidNodes(db, delta, level, k2, e2, name)
  {
    assert kids == kids[..i] + ([kids[i]] + kids[i + 1..]);
    assert elems == elems[..i] + ([elems[i]] + elems[i + 1..]);
    CutKid(db, delta, level, kids[..i], elems[..i], kids[i], elems[i], kids[i + 1..], elems[i + 1..], lo);
  }

  lemma ChildIs(db: Store, delta: Store, c: Chunk, level: nat, lo: Bound, hi: Bound, key: int, i: nat)
    returns (mid: Bound)
    requires Node(db, delta, c, level, lo, hi) && c.Meta? && Less(lo, At(key)) && Leq(At(key), hi)
               && IsIndex(c.keys, key, i)
    ensures i < |Kids(c)| && mid == LastOr(Kids(c)[..i], lo) && Less(mid, At(key))
    ensures var name := if i == |c.keys| then Infi else At(c.keys[i]);
            && Kids(c)[i] == name && Leq(At(key), name) && NodeAt(db, delta, level - 1, name, c.elems[i], mid)
            && (Id(level - 1, name) in delta || Id(level - 1, name) in db)
            && Node(db, delta, Get(db, delta, Id(level - 1, name)), level - 1, mid, name)
  {
    mid := LastOr(Kids(c)[..i], lo);
    ChildFor(db, delta, c, level, lo, hi, key, i);
  }

  /** The loop of a leaf insert. */
  method InsertEntry(es: seq<Entry>, key: int, value: Value) returns (news: seq<Entry>)
    requires Sorted(es)
    ensures news == Put(es, key, value)
  {
    news := [];
    var i, inserted := 0, false;
    while i < |es|
      invariant 0 <= i <= |es|
      invariant news == if inserted then Put(es[..i], key, value) else es[..i]
      invariant !inserted ==> forall j :: 0 <= j < i ==> es[j].key < key
      invariant inserted ==> forall j :: i <= j < |es| ==> key < es[j].key
    {
      assert es[..i + 1] == es[..i] + [es[i]];
      if inserted || key < es[i].key {
        PutLeft(es[..i], [es[i]], key, value);
      }
      if !inserted {
        PutRight(es[..i], [], key, value);
        PutRight(es[..i], [es[i]], key, value);
        assert es[..i] + [] == es[..i];
      }
      if !inserted && key < es[i].key {
        news := news + [Entry(key, value)];
        inserted := true;
      }
      if key == es[i].key {
        news := news + [Entry(key, value)];
        inserted := true;
      } else {
        news := news + [es[i]];
      }
      i := i + 1;
    }
    assert es[..i] == es;
    if !inserted {
      PutRight(es, [], key, value);
      assert es + [] == es;
      news := news + [Entry(key, value)];
    }
  }

  /** A node splits in the middle; the left half gets the odd one. */
  function SplitIndex(size: nat): (index: nat)
    ensures index - (size - index) == size % 2
  {
    size / 2 + if size % 2 != 0 then 1 else 0
  }

  /** The loops of `UpdateChild`: the keys and counts of the node with the result for child `index` in place. */
  method SpliceChild(keys: seq<int>, elems: seq<nat>, index: nat, r: InsertResult)
    returns (newKeys: seq<int>, newElems: seq<nat>)
    requires index <= |keys| && |elems| == |keys| + 1
    ensures newKeys == keys[..index] + ((if r.isSplit then [r.splitKey] else []) + keys[index..])
    ensures newElems == elems[..index] + (r.elems + elems[index + 1..])
  {
    newKeys, newElems := [], [];
    ghost var split := if r.isSplit then [r.splitKey] else [];
    for i := 0 to |keys|
      invariant i <= index ==> newKeys == keys[..i] && newElems == elems[..i]
      invariant i > index ==> newKeys == keys[..index] + (split + keys[index..i])
      invariant i > index ==> newElems == elems[..index] + (r.elems + elems[index + 1..i])
    {
      if i == index {
        if r.isSplit {
          newKeys := newKeys + [r.splitKey];
        }
        newKeys := newKeys + [keys[i]];
        newElems := newElems + r.elems;
        assert keys[index..i + 1] == [keys[i]] && elems[index + 1..i + 1] == [];
      } else {
        newKeys := newKeys + [keys[i]];
        newElems := newElems + [elems[i]];
        if i > index {
          SpliceStep(keys[..index], split, keys, index, i);
          SpliceStep(elems[..index], r.elems, elems, index + 1, i);
        }
      }
    }
    if index >= |keys| {
      if r.isSplit {
        newKeys := newKeys + [r.splitKey];
      }
      newElems := newElems + r.elems;
    } else {
      newElems := newElems + [elems[|keys|]];
      SpliceStep(elems[..index], r.elems, elems, index + 1, |keys|);
      assert elems[index + 1..|keys| + 1] == elems[index + 1..] && keys[index..|keys|] == keys[index..];
    }
  }

  lemma SpliceStep<T>(a: seq<T>, mid: seq<T>, s: seq<T>, from: nat, i: nat)
    requires from <= i < |s|
    ensures a + (mid + s[from..i]) + [s[i]] == a + (mid + s[from..i + 1])
  {
    assert s[from..i + 1] == s[from..i] + [s[i]];
    assert mid + s[from..i] + [s[i]] == mid + (s[from..i] + [s[i]]);
  }

  /** One node put under its name. */
  lemma OneStored(db: Store, delta: Store, level: nat, name: Bound, count: nat, lo: Bound)
    requires NodeAt(db, delta, level, name, count, lo)
    ensures KidNodes(db, delta, level, [name], [count], lo)
    ensures KidEntries(db, delta, level, [name]) == EntriesAt(db, delta, level, name)
  {
    OneKid(db, delta, level, name);
    assert KidNodes(db, delta, level, [name][1..], [count][1..], name);
  }

  /** Two nodes put one after the other. */
  lemma TwoStored(db: Store, delta: Store, level: nat, left: Bound, n1: nat, right: Bound, c2: Chunk, n2: nat,
                  lo: Bound)
    requires NodeAt(db, delta, level, left, n1, lo) && Less(left, right)
    requires NodeAt(db, delta[Id(level, right) := c2], level, right, n2, left)
    ensures var delta' := delta[Id(level, right) := c2];
            && KidNodes(db, delta', level, [left, right], [n1, n2], lo)
            && KidEntries(db, delta', level, [left, right])
                 == EntriesAt(db, delta, level, left) + EntriesAt(db, delta', level, right)
  {
    var delta' := delta[Id(level, right) := c2];
    assert !InRange(Id(level, right), level, lo, left);
    assert Same(db, delta, db, delta', level, lo, left);
    NodeAtFrame(db, delta, db, delta', level, left, n1, lo);
    OneStored(db, delta', level, left, n1, lo);
    OneStored(db, delta', level, right, n2, left);
    KidsConcat(db, delta', level, [left], [n1], [right], [n2], lo);
    EntriesConcat(db, delta', level, [left], [right]);
    assert [left] + [right] == [left, right] && [n1] + [n2] == [n1, n2];
  }

  lemma LeafStored(db: Store, delta: Store, c: Chunk, lo: Bound, hi: Bound)
    requires c.Leaf? && c.entries != [] && Node(db, delta, c, 0, lo, hi)
    ensures var delta' := delta[Id(0, hi) := c];
            NodeAt(db, delta', 0, hi, |c.entries|, lo) && EntriesAt(db, delta', 0, hi) == c.entries
  {
  }

  /** The `kMap` case of `Insert`. */
  method InsertLeaf(ghost db: Store, delta: Store, c: Chunk, key: int, value: Value, ghost fanout: nat, leafFanout: nat,
                    ghost lo: Bound, ghost hi: Bound)
    returns (delta': Store, r: InsertResult)
    requires leafFanout >= 1 && c.Leaf? && Node(db, delta, c, 0, lo, hi) && Less(lo, At(key)) && Leq(At(key), hi)
    requires Sized(c, fanout, leafFanout) && Bounded(delta, fanout, leafFanout)
    ensures Inserted(db, delta, delta', c, 0, lo, hi, key, value, r) && Bounded(delta', fanout, leafFanout)
  {
    var news := InsertEntry(c.entries, key, value);
    NewLeaf(db, delta, c, key, value, lo, hi);
    delta', r := PutLeaf(db, delta, c, news, fanout, leafFanout, lo, hi, key, value);
  }

  lemma NewLeaf(db: Store, delta: Store, c: Chunk, key: int, value: Value, lo: Bound, hi: Bound)
    requires c.Leaf? && Node(db, delta, c, 0, lo, hi) && Less(lo, At(key)) && Leq(At(key), hi)
    ensures var news := Put(c.entries, key, value);
            0 < |news| <= |c.entries| + 1 && Node(db, delta, Leaf(news, c.next), 0, lo, hi)
  {
    PutBounds(c.entries, key, value, lo, hi);
    LastOfPut(c.entries, key, value);
  }

  /** Puts the new leaf, split in two if it is too large. */
  method PutLeaf(ghost db: Store, delta: Store, c: Chunk, news: seq<Entry>, ghost fanout: nat, leafFanout: nat,
                 ghost lo: Bound, ghost hi: Bound, ghost key: int, ghost value: Value)
    returns (delta': Store, r: InsertResult)
    requires leafFanout >= 1 && c.Leaf? && news == Put(c.entries, key, value) && 0 < |news| <= leafFanout + 1
    requires Node(db, delta, Leaf(news, c.next), 0, lo, hi) && Bounded(delta, fanout, leafFanout)
    ensures Inserted(db, delta, delta', c, 0, lo, hi, key, value, r) && Bounded(delta', fanout, leafFanout)
  {
    if |news| <= leafFanout {
      var name := if c.next.None? then Infi else At(news[|news| - 1].key);
      delta' := delta[Id(0, name) := Leaf(news, c.next)];
      r := InsertResult(false, 0, 0, [|news|]);
      WholeLeaf(db, delta, c, news, lo, hi, key, value);
    } else {
      delta', r := PutHalves(db, delta, c, news, fanout, leafFanout, lo, hi, key, value);
    }
  }

  method PutHalves(ghost db: Store, delta: Store, c: Chunk, news: seq<Entry>, ghost fanout: nat, leafFanout: nat,
                   ghost lo: Bound, ghost hi: Bound, ghost key: int, ghost value: Value)
    returns (delta': Store, r: InsertResult)
    requires leafFanout >= 1 && c.Leaf? && news == Put(c.entries, key, value) && |news| == leafFanout + 1
    requires Node(db, delta, Leaf(news, c.next), 0, lo, hi) && Bounded(delta, fanout, leafFanout)
    ensures Inserted(db, delta, delta', c, 0, lo, hi, key, value, r) && Bounded(delta', fanout, leafFanout)
  {
    var idx := SplitIndex(|news|);
    HalvesSized(|news|, leafFanout);
    var splitKey := news[idx - 1].key;
    var news1, news2 := news[..idx], news[idx..];
    var id1 := Id(0, At(splitKey));
    var id2 := Id(0, if c.next.None? then Infi else At(news2[|news2| - 1].key));
    delta' := delta[id1 := Leaf(news1, Some(id2))][id2 := Leaf(news2, c.next)];
    r := InsertResult(true, splitKey, 0, [|news1|, |news2|]);
    BoundedTwo(delta, id1, Leaf(news1, Some(id2)), id2, Leaf(news2, c.next), fanout, leafFanout);
    SplitLeaf(db, delta, c, news, idx, lo, hi, key, value);
  }

  /** A node one over its fanout has two halves within it. */
  lemma HalvesSized(size: nat, fanout: nat)
    requires fanout >= 1 && size == fanout + 1
    ensures 0 < SplitIndex(size) <= fanout && size - SplitIndex(size) <= fanout
  {
  }

  lemma BoundedTwo(delta: Store, id1: Id, c1: Chunk, id2: Id, c2: Chunk, fanout: nat, leafFanout: nat)
    requires Bounded(delta, fanout, leafFanout) && Sized(c1, fanout, leafFanout) && Sized(c2, fanout, leafFanout)
    ensures Bounded(delta[id1 := c1][id2 := c2], fanout, leafFanout)
  {
  }

  lemma WholeLeaf(db: Store, delta: Store, c: Chunk, es: seq<Entry>, lo: Bound, hi: Bound, k: int, v: Value)
    requires c.Leaf? && es == Put(c.entries, k, v) && es != [] && Node(db, delta, Leaf(es, c.next), 0, lo, hi)
    ensures Inserted(db, delta, delta[Id(0, hi) := Leaf(es, c.next)], c, 0, lo, hi, k, v,
              InsertResult(false, 0, 0, [|es|]))
  {
    LeafStored(db, delta, Leaf(es, c.next), lo, hi);
    OneStored(db, delta[Id(0, hi) := Leaf(es, c.next)], 0, hi, |es|, lo);
  }

  lemma SplitLeaf(db: Store, delta: Store, c: Chunk, es: seq<Entry>, idx: nat, lo: Bound, hi: Bound, k: int, v: Value)
    requires c.Leaf? && es == Put(c.entries, k, v) && Node(db, delta, Leaf(es, c.next), 0, lo, hi) && 0 < idx < |es|
    ensures var delta1 := delta[Id(0, At(es[idx - 1].key)) := Leaf(es[..idx], Some(Id(0, hi)))];
            var delta' := delta1[Id(0, hi) := Leaf(es[idx..], c.next)];
            Inserted(db, delta, delta', c, 0, lo, hi, k, v, InsertResult(true, es[idx - 1].key, 0, [idx, |es| - idx]))
  {
    var split := At(es[idx - 1].key);
    var c1, c2 := Leaf(es[..idx], Some(Id(0, hi))), Leaf(es[idx..], c.next);
    HalvesOfLeaf(db, delta, es, c.next, idx, lo, hi);
    PutTwo(delta, 0, split, c1, hi, c2, lo, hi);
    TwoInserted(db, delta, delta[Id(0, split) := c1][Id(0, hi) := c2], c, 0, lo, hi, k, v, es[idx - 1].key,
        [idx, |es| - idx]);
  }

  lemma TwoInserted(db: Store, delta: Store, delta': Store, c: Chunk, level: nat, lo: Bound, hi: Bound, k: int,
                    v: Value, splitKey: int, counts: seq<nat>)
    requires Id(level, At(splitKey)) in delta' && Id(level, hi) in delta' && |counts| == 2
    requires KidNodes(db, delta', level, [At(splitKey), hi], counts, lo)
    requires KidEntries(db, delta', level, [At(splitKey), hi]) == Put(Entries(db, delta, c, level), k, v)
    requires OnlyIn(delta, delta', level, lo, hi)
    ensures Inserted(db, delta, delta', c, level, lo, hi, k, v, InsertResult(true, splitKey, level, counts))
  {
  }

  lemma HalvesOfLeaf(db: Store, delta: Store, es: seq<Entry>, next: Option<Id>, idx: nat, lo: Bound, hi: Bound)
    requires Node(db, delta, Leaf(es, next), 0, lo, hi) && 0 < idx < |es|
    ensures var split := At(es[idx - 1].key);
            var delta' := delta[Id(0, split) := Leaf(es[..idx], Some(Id(0, hi)))][Id(0, hi) := Leaf(es[idx..], next)];
            && Less(lo, split) && Less(split, hi)
            && KidNodes(db, delta', 0, [split, hi], [idx, |es| - idx], lo)
                && KidEntries(db, delta', 0, [split, hi]) == es
  {
    var split := At(es[idx - 1].key);
    var c1, c2 := Leaf(es[..idx], Some(Id(0, hi))), Leaf(es[idx..], next);
    LeftHalf(db, delta, es, next, idx, lo, hi);
    LeafStored(db, delta, c1, lo, split);
    RightHalf(db, delta[Id(0, split) := c1], es, next, idx, lo, hi);
    LeafStored(db, delta[Id(0, split) := c1], c2, split, hi);
    TwoStored(db, delta[Id(0, split) := c1], 0, split, idx, hi, c2, |es| - idx, lo);
    assert es[..idx] + es[idx..] == es;
  }

  lemma LeftHalf(db: Store, delta: Store, es: seq<Entry>, next: Option<Id>, idx: nat, lo: Bound, hi: Bound)
    requires Node(db, delta, Leaf(es, next), 0, lo, hi) && 0 < idx < |es|
    ensures Node(db, delta, Leaf(es[..idx], Some(Id(0, hi))), 0, lo, At(es[idx - 1].key))
  {
  }

  lemma RightHalf(db: Store, delta: Store, es: seq<Entry>, next: Option<Id>, idx: nat, lo: Bound, hi: Bound)
    requires Node(db, map[], Leaf(es, next), 0, lo, hi) && 0 < idx < |es|
    ensures Less(At(es[idx - 1].key), hi) && Node(db, delta, Leaf(es[idx..], next), 0, At(es[idx - 1].key), hi)
  {
    assert Less(At(es[idx - 1].key), At(es[idx].key)) && Leq(At(es[idx].key), hi);
  }

  lemma PutTwo(delta: Store, level: nat, n1: Bound, c1: Chunk, n2: Bound, c2: Chunk, lo: Bound, hi: Bound)
    requires InRange(Id(level, n1), level, lo, hi) && InRange(Id(level, n2), level, lo, hi)
    ensures OnlyIn(delta, delta[Id(level, n1) := c1][Id(level, n2) := c2], level, lo, hi)
  {
  }

  lemma {:induction false} LastOfPut(es: seq<Entry>, k: int, v: Value)
    ensures 0 < |Put(es, k, v)| <= |es| + 1
    ensures es != [] && k <= es[|es| - 1].key ==> Put(es, k, v)[|Put(es, k, v)| - 1].key == es[|es| - 1].key
  {
    if es != [] && k > es[0].key { LastOfPut(es[1..], k, v); }
  }

  /** The names with `mid` spliced in before index `i`. */
  lemma SplicedNames(keys: seq<int>, i: nat, mid: seq<int>, tail: seq<Bound>)
    requires i <= |keys| && i < |keys| + |tail|
    ensures var kids := Names(keys) + tail;
            Names(keys[..i] + (mid + keys[i..])) + tail == kids[..i] + ((Names(mid) + [kids[i]]) + kids[i + 1..])
  {
    var kids := Names(keys) + tail;
    var lhs, rhs := Names(keys[..i] + (mid + keys[i..])) + tail, kids[..i] + ((Names(mid) + [kids[i]]) + kids[i + 1..]);
    assert |lhs| == |rhs|;
    forall j | 0 <= j < |lhs| ensures lhs[j] == rhs[j] {
      if j >= i + |mid| { assert rhs[j] == kids[j - |mid|]; }
    }
  }

  /** The children of the node with the result for child `i` in place. */
  lemma SplicedKids(c: Chunk, i: nat, r: InsertResult, keys: seq<int>, elems: seq<nat>, level: nat)
    requires c.Meta? && |c.elems| == |c.keys| + 1 && i < |Kids(c)|
    requires keys == c.keys[..i] + ((if r.isSplit then [r.splitKey] else []) + c.keys[i..])
    requires elems == c.elems[..i] + (r.elems + c.elems[i + 1..]) && |r.elems| == |NewNames(r, Kids(c)[i])|
    requires i == |c.keys| ==> r.elems[|r.elems| - 1] > 0
    ensures |elems| == |keys| + 1 && (elems[|keys|] > 0 <==> c.elems[|c.keys|] > 0)
    ensures Kids(Meta(level, keys, elems)) == Kids(c)[..i] + (NewNames(r, Kids(c)[i]) + Kids(c)[i + 1..])
    ensures c.keys != [] ==> keys != []
    ensures i < |c.keys| ==> keys[|keys| - 1] == c.keys[|c.keys| - 1]
  {
    var n := |c.keys|;
    var mid := if r.isSplit then [r.splitKey] else [];
    assert elems[|keys|] == if i < n then c.elems[n] else r.elems[|r.elems| - 1];
    SplicedNames(c.keys, i, mid, if c.elems[n] > 0 then [Infi] else []);
    assert Names(mid) + [Kids(c)[i]] == NewNames(r, Kids(c)[i]);
  }

  /** The children after the insert below child `i`. */
  lemma NewKids(db: Store, delta: Store, delta1: Store, c: Chunk, level: nat, lo: Bound, hi: Bound, k: int, v: Value,
                i: nat, r: InsertResult)
    requires Node(db, delta, c, level, lo, hi) && c.Meta? && Less(lo, At(k)) && Leq(At(k), hi) && IsIndex(c.keys, k, i)
    requires i < |Kids(c)|
    requires NodeAt(db, delta, level - 1, Kids(c)[i], c.elems[i], LastOr(Kids(c)[..i], lo))
    requires Inserted(db, delta, delta1, Get(db, delta, Id(level - 1, Kids(c)[i])), level - 1,
               LastOr(Kids(c)[..i], lo), Kids(c)[i], k, v, r)
    ensures var kids := Kids(c)[..i] + (NewNames(r, Kids(c)[i]) + Kids(c)[i + 1..]);
            && KidNodes(db, delta1, level - 1, kids, c.elems[..i] + (r.elems + c.elems[i + 1..]), lo)
            && KidEntries(db, delta1, level - 1, kids) == Put(KidEntries(db, delta, level - 1, Kids(c)), k, v)
    ensures r.elems[|r.elems| - 1] > 0
  {
    ChildFor(db, delta, c, level, lo, hi, k, i);
    var k1, e1, name, k2, e2 := Kids(c)[..i], c.elems[..i], Kids(c)[i], Kids(c)[i + 1..], c.elems[i + 1..];
    InsertedAmong(db, delta, delta1, level - 1, k1, e1, name, c.elems[i], k2, e2, r, lo, k, v);
  }

  /** The children around the one with the insert. */
  lemma InsertedAmong(db: Store, delta: Store, delta1: Store, level: nat, k1: seq<Bound>, e1: seq<nat>, name: Bound,
                      count: nat, k2: seq<Bound>, e2: seq<nat>, r: InsertResult, lo: Bound, k: int, v: Value)
    requires |k1| == |e1| && |k2| <= |e2| && NodeAt(db, delta, level, name, count, LastOr(k1, lo))
    requires KidNodes(db, delta, level, k1 + ([name] + k2), e1 + ([count] + e2), lo)
    requires Less(LastOr(k1, lo), At(k)) && Leq(At(k), name)
    requires Inserted(db, delta, delta1, Get(db, delta, Id(level, name)), level, LastOr(k1, lo), name, k, v, r)
    ensures KidNodes(db, delta1, level, k1 + (NewNames(r, name) + k2), e1 + (r.elems + e2), lo)
    ensures KidEntries(db, delta1, level, k1 + (NewNames(r, name) + k2))
         == Put(KidEntries(db, delta, level, k1 + ([name] + k2)), k, v)
    ensures r.elems != [] && r.elems[|r.elems| - 1] > 0
  {
    LastCount(db, delta1, level, NewNames(r, name), r.elems, LastOr(k1, lo));
    ReplaceKid(db, delta, delta1, level, k1, e1, name, count, k2, e2, NewNames(r, name), r.elems, lo, k, v);
  }

  /** The meta node after the insert below child `i`. */
  lemma NewMeta(db: Store, delta: Store, delta1: Store, c: Chunk, level: nat, lo: Bound, hi: Bound, k: int, v: Value,
                i: nat, r: InsertResult, keys: seq<int>, elems: seq<nat>)
    requires Node(db, delta, c, level, lo, hi) && c.Meta? && Less(lo, At(k)) && Leq(At(k), hi) && IsIndex(c.keys, k, i)
    requires i < |Kids(c)|
    requires NodeAt(db, delta, level - 1, Kids(c)[i], c.elems[i], LastOr(Kids(c)[..i], lo))
    requires Inserted(db, delta, delta1, Get(db, delta, Id(level - 1, Kids(c)[i])), level - 1,
               LastOr(Kids(c)[..i], lo), Kids(c)[i], k, v, r)
    requires keys == c.keys[..i] + ((if r.isSplit then [r.splitKey] else []) + c.keys[i..])
    requires elems == c.elems[..i] + (r.elems + c.elems[i + 1..])
    ensures Node(db, delta1, Meta(level, keys, elems), level, lo, hi)
    ensures Entries(db, delta1, Meta(level, keys, elems), level) == Put(Entries(db, delta, c, level), k, v)
  {
    var kids := Kids(c)[..i] + (NewNames(r, Kids(c)[i]) + Kids(c)[i + 1..]);
    assert KidNodes(db, delta1, level - 1, kids, elems, lo) && r.elems[|r.elems| - 1] > 0
      && KidEntries(db, delta1, level - 1, kids) == Put(KidEntries(db, delta, level - 1, Kids(c)), k, v) by {
      NewKids(db, delta, delta1, c, level, lo, hi, k, v, i, r);
    }
    SplicedKids(c, i, r, keys, elems, level);
    MetaOver(db, delta1, Meta(level, keys, elems), kids, lo, hi);
  }

  /** A meta node over well-formed children is well-formed. */
  lemma MetaOver(db: Store, delta: Store, c: Chunk, kids: seq<Bound>, lo: Bound, hi: Bound)
    requires c.Meta? && c.level > 0 && c.keys != [] && |c.elems| == |c.keys| + 1 && Less(lo, hi)
    requires (c.elems[|c.keys|] > 0 <==> hi.Infi?) && (hi.At? ==> c.keys[|c.keys| - 1] == hi.key)
    requires kids == Kids(c) && KidNodes(db, delta, c.level - 1, kids, c.elems, lo)
    ensures Node(db, delta, c, c.level, lo, hi) && Entries(db, delta, c, c.level)
              == KidEntries(db, delta, c.level - 1, kids)
  {
  }

  lemma {:induction false} LastCount(db: Store, delta: Store, level: nat, kids: seq<Bound>, elems: seq<nat>, lo: Bound)
    requires KidNodes(db, delta, level, kids, elems, lo) && |kids| == |elems| > 0
    ensures elems[|elems| - 1] > 0
    decreases |kids|
  {
    if |kids| > 1 {
      LastCount(db, delta, level, kids[1..], elems[1..], kids[0]);
    } else {
      assert NodeAt(db, delta, level, kids[0], elems[0], lo);
    }
  }

  lemma WholeMeta(db: Store, delta: Store, c: Chunk, level: nat, lo: Bound, hi: Bound)
    requires c.Meta? && Node(db, delta, c, level, lo, hi)
    ensures var delta' := delta[Id(level, hi) := c];
            && KidNodes(db, delta', level, [hi], [Sum(c.elems)], lo)
            && KidEntries(db, delta', level, [hi]) == Entries(db, delta, c, level)
  {
    MetaStored(db, delta, c, level, lo, hi);
    OneStored(db, delta[Id(level, hi) := c], level, hi, Sum(c.elems), lo);
  }

  /** The two halves of a meta node. */
  function LeftMeta(c: Chunk, m: nat): Chunk
    requires c.Meta? && m <= |c.keys| && |c.elems| == |c.keys| + 1
  {
    Meta(c.level, c.keys[..m], c.elems[..m] + [0])
  }

  function RightMeta(c: Chunk, m: nat): Chunk
    requires c.Meta? && m <= |c.keys| && |c.elems| == |c.keys| + 1
  {
    Meta(c.level, c.keys[m..], c.elems[m..])
  }

  lemma HalvesOfMeta(db: Store, delta: Store, c: Chunk, m: nat, level: nat, lo: Bound, hi: Bound)
    requires c.Meta? && Node(db, delta, c, level, lo, hi) && 0 < m < |c.keys|
    ensures Node(db, delta, LeftMeta(c, m), level, lo, At(c.keys[m - 1]))
    ensures Node(db, delta, RightMeta(c, m), level, At(c.keys[m - 1]), hi)
    ensures Less(At(c.keys[m - 1]), hi)
    ensures Entries(db, delta, c, level) == Entries(db, delta, LeftMeta(c, m), level)
              + Entries(db, delta, RightMeta(c, m), level)
  {
    HalvesOfKids(db, delta, level - 1, Kids(c), c.elems, m, lo);
    LeftOfMeta(db, delta, c, m, level, lo);
    RightOfMeta(db, delta, c, m, level, hi);
    EntriesConcat(db, delta, level - 1, Kids(c)[..m], Kids(c)[m..]);
    assert Kids(c)[..m] + Kids(c)[m..] == Kids(c);
  }

  lemma LeftOfMeta(db: Store, delta: Store, c: Chunk, m: nat, level: nat, lo: Bound)
    requires c.Meta? && c.level == level > 0 && |c.elems| == |c.keys| + 1 && 0 < m < |c.keys|
               && Less(lo, At(c.keys[m - 1]))
    requires KidNodes(db, delta, level - 1, Kids(c)[..m], c.elems[..m] + [0], lo)
    ensures Node(db, delta, LeftMeta(c, m), level, lo, At(c.keys[m - 1]))
    ensures Entries(db, delta, LeftMeta(c, m), level) == KidEntries(db, delta, level - 1, Kids(c)[..m])
  {
    assert Kids(LeftMeta(c, m)) == Kids(c)[..m];
    MetaOver(db, delta, LeftMeta(c, m), Kids(c)[..m], lo, At(c.keys[m - 1]));
  }

  lemma RightOfMeta(db: Store, delta: Store, c: Chunk, m: nat, level: nat, hi: Bound)
    requires c.Meta? && c.level == level > 0 && |c.elems| == |c.keys| + 1 && 0 < m < |c.keys|
    requires (c.elems[|c.keys|] > 0 <==> hi.Infi?) && (hi.At? ==> c.keys[|c.keys| - 1] == hi.key)
    requires !hi.NegInf? && KidNodes(db, delta, level - 1, Kids(c)[m..], c.elems[m..], At(c.keys[m - 1]))
    ensures Node(db, delta, RightMeta(c, m), level, At(c.keys[m - 1]), hi) && Less(At(c.keys[m - 1]), hi)
    ensures Entries(db, delta, RightMeta(c, m), level) == KidEntries(db, delta, level - 1, Kids(c)[m..])
  {
    assert Kids(RightMeta(c, m)) == Kids(c)[m..];
    KidsEntries(db, delta, level - 1, Kids(c)[m..], c.elems[m..], At(c.keys[m - 1]));
    MetaOver(db, delta, RightMeta(c, m), Kids(c)[m..], At(c.keys[m - 1]), hi);
  }

  lemma HalvesOfKids(db: Store, delta: Store, level: nat, kids: seq<Bound>, elems: seq<nat>, m: nat, lo: Bound)
    requires KidNodes(db, delta, level, kids, elems, lo) && 0 < m < |kids| <= |elems|
    ensures KidNodes(db, delta, level, kids[..m], elems[..m] + [0], lo) && Less(lo, kids[m - 1])
    ensures KidNodes(db, delta, level, kids[m..], elems[m..], kids[m - 1])
  {
    var k1, k2, e1, e2 := kids[..m], kids[m..], elems[..m], elems[m..];
    assert k1 + k2 == kids && e1 + e2 == elems && k1 + [] == k1;
    KidsConcat(db, delta, level, k1, e1, k2, e2, lo);
    KidsConcat(db, delta, level, k1, e1, [], [0], lo);
    KidsEntries(db, delta, level, k1, e1, lo);
  }

  lemma SplitMeta(db: Store, delta: Store, c: Chunk, m: nat, level: nat, lo: Bound, hi: Bound)
    requires c.Meta? && Node(db, delta, c, level, lo, hi) && 0 < m < |c.keys|
    ensures var split := At(c.keys[m - 1]);
            var delta' := delta[Id(level, split) := LeftMeta(c, m)][Id(level, hi) := RightMeta(c, m)];
            && Less(lo, split) && Less(split, hi)
            && KidNodes(db, delta', level, [split, hi], [Sum(LeftMeta(c, m).elems), Sum(RightMeta(c, m).elems)], lo)
            && KidEntries(db, delta', level, [split, hi]) == Entries(db, delta, c, level)
  {
    var split, c1, c2 := At(c.keys[m - 1]), LeftMeta(c, m), RightMeta(c, m);
    var delta1 := delta[Id(level, split) := c1];
    HalvesOfMeta(db, delta, c, m, level, lo, hi);
    MetaStored(db, delta, c1, level, lo, split);
    SamePut(db, delta, level, split, c1, split, hi);
    NodeFrame(db, delta, db, delta1, c2, level, split, hi);
    MetaStored(db, delta1, c2, level, split, hi);
    TwoStored(db, delta1, level, split, Sum(c1.elems), hi, c2, Sum(c2.elems), lo);
  }

  /** The second half of `UpdateChild`: puts the new meta node, split in two if it is too large. */
  method PutMeta(ghost db: Store, delta: Store, c: Chunk, last: bool, fanout: nat, ghost leafFanout: nat,
                 ghost lo: Bound, ghost hi: Bound)
    returns (delta': Store, r: InsertResult)
    requires fanout >= 1 && c.Meta? && Node(db, delta, c, c.level, lo, hi) && (last <==> hi.Infi?)
    requires Bounded(delta, fanout, leafFanout) && |c.keys| <= fanout + 1
    ensures Bounded(delta', fanout, leafFanout)
    ensures r.level == c.level && |r.elems| == |NewNames(r, hi)|
    ensures forall n :: n in NewNames(r, hi) ==> Id(c.level, n) in delta'
    ensures KidNodes(db, delta', c.level, NewNames(r, hi), r.elems, lo)
    ensures KidEntries(db, delta', c.level, NewNames(r, hi)) == Entries(db, delta, c, c.level)
    ensures OnlyIn(delta, delta', c.level, lo, hi)
  {
    var thisId := if last then Infi else At(c.keys[|c.keys| - 1]);
    if |c.keys| <= fanout {
      WholeMeta(db, delta, c, c.level, lo, hi);
      delta' := delta[Id(c.level, thisId) := c];
      r := InsertResult(false, 0, c.level, [Sum(c.elems)]);
    } else {
      var idx := SplitIndex(|c.keys|);
      var splitKey := c.keys[idx - 1];
      var c1 := Meta(c.level, c.keys[..idx], c.elems[..idx] + [0]);
      var c2 := Meta(c.level, c.keys[idx..], c.elems[idx..]);
      SplitMeta(db, delta, c, idx, c.level, lo, hi);
      PutTwo(delta, c.level, At(splitKey), c1, hi, c2, lo, hi);
      delta' := delta[Id(c.level, At(splitKey)) := c1][Id(c.level, thisId) := c2];
      r := InsertResult(true, splitKey, c.level, [Sum(c1.elems), Sum(c2.elems)]);
    }
  }

  lemma OnlyInTrans(d0: Store, d1: Store, d2: Store, level: nat, lo: Bound, hi: Bound, level': nat, lo': Bound,
                    hi': Bound)
    requires OnlyIn(d0, d1, level, lo, hi) && OnlyIn(d1, d2, level', lo', hi')
    requires level <= level' && Leq(lo', lo) && Leq(hi, hi')
    ensures OnlyIn(d0, d2, level', lo', hi')
  {
    assert forall id :: InRange(id, level, lo, hi) ==> InRange(id, level', lo', hi');
  }

  /** `QLBTree::Insert` on the node `c`. */
  method Insert(db: Store, delta: Store, c: Chunk, key: int, value: Value, fanout: nat, leafFanout: nat,
                ghost level: nat, ghost lo: Bound, ghost hi: Bound)
    returns (delta': Store, r: InsertResult)
    requires fanout >= 1 && leafFanout >= 1 && Node(db, delta, c, level, lo, hi) && Less(lo, At(key))
               && Leq(At(key), hi)
    requires Sized(c, fanout, leafFanout) && Bounded(db, fanout, leafFanout) && Bounded(delta, fanout, leafFanout)
    ensures Inserted(db, delta, delta', c, level, lo, hi, key, value, r) && Bounded(delta', fanout, leafFanout)
    decreases level, 1
  {
    if c.Leaf? {
      delta', r := InsertLeaf(db, delta, c, key, value, fanout, leafFanout, lo, hi);
    } else {
      delta', r := InsertMeta(db, delta, c, key, value, fanout, leafFanout, level, lo, hi);
    }
  }

  /** The `kMeta` case of `Insert`. */
  method InsertMeta(db: Store, delta: Store, c: Chunk, key: int, value: Value, fanout: nat, leafFanout: nat,
                    ghost level: nat, ghost lo: Bound, ghost hi: Bound)
    returns (delta': Store, r: InsertResult)
    requires fanout >= 1 && leafFanout >= 1 && Node(db, delta, c, level, lo, hi) && Less(lo, At(key))
               && Leq(At(key), hi)
    requires c.Meta? && Sized(c, fanout, leafFanout) && Bounded(db, fanout, leafFanout)
               && Bounded(delta, fanout, leafFanout)
    ensures Inserted(db, delta, delta', c, level, lo, hi, key, value, r) && Bounded(delta', fanout, leafFanout)
    decreases level, 0
  {
    KeysAscend(db, delta, c, level, lo, hi);
    var index := BinarySearch(c.keys, key, 0, |c.keys|);
    ghost var mid := ChildIs(db, delta, c, level, lo, hi, key, index);
    var childId := Id(c.level - 1, if index == |c.keys| then Infi else At(c.keys[index]));
    var delta1, r1 := Insert(db, delta, Get(db, delta, childId), key, value, fanout, leafFanout, level - 1, mid,
        childId.name);
    delta', r := UpdateChild(db, delta, delta1, c, index, r1, fanout, leafFanout, level, lo, hi, key, value);
  }

  /** `QLBTreeMeta::UpdateChild`, after the insert below child `index` has given `r1`. */
  method UpdateChild(ghost db: Store, ghost delta: Store, delta1: Store, c: Chunk, index: nat, r1: InsertResult,
                     fanout: nat, ghost leafFanout: nat, ghost level: nat, ghost lo: Bound, ghost hi: Bound,
                     ghost key: int, ghost value: Value)
    returns (delta': Store, r: InsertResult)
    requires fanout >= 1 && Node(db, delta, c, level, lo, hi) && c.Meta? && Less(lo, At(key)) && Leq(At(key), hi)
    requires IsIndex(c.keys, key, index) && index < |Kids(c)|
    requires NodeAt(db, delta, level - 1, Kids(c)[index], c.elems[index], LastOr(Kids(c)[..index], lo))
    requires Inserted(db, delta, delta1, Get(db, delta, Id(level - 1, Kids(c)[index])), level - 1,
                      LastOr(Kids(c)[..index], lo), Kids(c)[index], key, value, r1)
    requires Sized(c, fanout, leafFanout) && Bounded(delta1, fanout, leafFanout)
    ensures Inserted(db, delta, delta', c, level, lo, hi, key, value, r) && Bounded(delta', fanout, leafFanout)
  {
    var newKeys, newElems := SpliceChild(c.keys, c.elems, index, r1);
    NewMeta(db, delta, delta1, c, level, lo, hi, key, value, index, r1, newKeys, newElems);
    var newMeta := Meta(c.level, newKeys, newElems);
    delta', r := PutMeta(db, delta1, newMeta, c.elems[|c.keys|] != 0, fanout, leafFanout, lo, hi);
    LastKid(db, delta, c, level, lo, hi);
    OnlyInTrans(delta, delta1, delta', level - 1, LastOr(Kids(c)[..index], lo), Kids(c)[index], level, lo, hi);
  }

  lemma LastKid(db: Store, delta: Store, c: Chunk, level: nat, lo: Bound, hi: Bound)
    requires Node(db, delta, c, level, lo, hi) && c.Meta?
    ensures forall i :: 0 <= i < |Kids(c)| ==> Less(lo, Kids(c)[i]) && Leq(Kids(c)[i], hi)
  {
    KidsAscend(db, delta, level - 1, Kids(c), c.elems, lo);
    assert Kids(c)[|Kids(c)| - 1] == hi;
  }

  const NONE: Store := map[]

  /** Only database records in the range may differ. */
  ghost predicate DbOnlyIn(db: Store, db': Store, level: nat, lo: Bound, hi: Bound) {
    forall id :: id in db ==> id in db' && (db'[id] == db[id] || InRange(id, level, lo, hi))
  }

  /** The records that differ are the overlay's. */
  ghost predicate Copied(db: Store, delta: Store, db': Store) {
    forall id :: id in db' ==> (id in db && db'[id] == db[id]) || (id in delta && db'[id] == delta[id])
  }

  /** Half-way through committing the children: those `done` are in the database alone, those `todo` are
      still read through the overlay, and all hold the same entries as before. */
  ghost predicate Committing(was: Store, db: Store, delta: Store, level: nat, done: seq<Bound>, e1: seq<nat>,
                             todo: seq<Bound>, e2: seq<nat>, lo: Bound)
  {
    && |done| == |e1| && |todo| <= |e2|
    && KidNodes(db, NONE, level, done, e1, lo) && KidNodes(db, delta, level, todo, e2, LastOr(done, lo))
    && KidEntries(db, NONE, level, done) + KidEntries(db, delta, level, todo)
        == KidEntries(was, delta, level, done + todo)
    && DbOnlyIn(was, db, level, lo, LastOr(done, lo)) && Leq(lo, LastOr(done, lo))
  }

  lemma CommitStep(was: Store, db: Store, db': Store, delta: Store, level: nat, done: seq<Bound>, e1: seq<nat>,
                   todo: seq<Bound>, e2: seq<nat>, lo: Bound)
    requires Committing(was, db, delta, level, done, e1, todo, e2, lo) && todo != []
    requires NodeAt(db', NONE, level, todo[0], e2[0], LastOr(done, lo))
    requires EntriesAt(db', NONE, level, todo[0]) == EntriesAt(db, delta, level, todo[0])
    requires DbOnlyIn(db, db', level, LastOr(done, lo), todo[0])
    ensures Committing(was, db', delta, level, done + [todo[0]], e1 + [e2[0]], todo[1..], e2[1..], lo)
  {
    var mid, name := LastOr(done, lo), todo[0];
    assert NodeAt(db, delta, level, name, e2[0], mid);
    assert Less(mid, name);
    DoneStays(db, db', level, done, e1, lo, name);
    assert KidNodes(db, delta, level, todo[1..], e2[1..], name);
    TodoStays(db, db', delta, level, todo[1..], e2[1..], mid, name);
    CommitStepNodes(db', level, done, e1, name, e2[0], lo);
    CommitStepEntries(db, db', delta, level, done, todo);
    assert done + [name] + todo[1..] == done + todo;
    assert LastOr(done + [name], lo) == name;
    assert DbOnlyIn(was, db', level, lo, name);
  }

  lemma CommitStepNodes(db: Store, level: nat, done: seq<Bound>, e1: seq<nat>, name: Bound, count: nat, lo: Bound)
    requires |done| == |e1| && KidNodes(db, NONE, level, done, e1, lo)
               && NodeAt(db, NONE, level, name, count, LastOr(done, lo))
    ensures KidNodes(db, NONE, level, done + [name], e1 + [count], lo)
  {
    OneStored(db, NONE, level, name, count, LastOr(done, lo));
    KidsConcat(db, NONE, level, done, e1, [name], [count], lo);
  }

  lemma CommitStepEntries(db: Store, db': Store, delta: Store, level: nat, done: seq<Bound>, todo: seq<Bound>)
    requires todo != []
    requires EntriesAt(db', NONE, level, todo[0]) == EntriesAt(db, delta, level, todo[0])
    requires KidEntries(db', NONE, level, done) == KidEntries(db, NONE, level, done)
    requires KidEntries(db', delta, level, todo[1..]) == KidEntries(db, delta, level, todo[1..])
    ensures KidEntries(db', NONE, level, done + [todo[0]]) + KidEntries(db', delta, level, todo[1..])
         == KidEntries(db, NONE, level, done) + KidEntries(db, delta, level, todo)
  {
    var name, a, c := todo[0], KidEntries(db, NONE, level, done), KidEntries(db, delta, level, todo[1..]);
    var b := EntriesAt(db, delta, level, name);
    assert KidEntries(db', NONE, level, done + [name]) == a + b by {
      OneKid(db', NONE, level, name);
      EntriesConcat(db', NONE, level, done, [name]);
    }
    Associate(a, b, c);
  }

  lemma DoneStays(db: Store, db': Store, level: nat, done: seq<Bound>, e1: seq<nat>, lo: Bound, name: Bound)
    requires KidNodes(db, NONE, level, done, e1, lo) && DbOnlyIn(db, db', level, LastOr(done, lo), name)
    ensures KidNodes(db', NONE, level, done, e1, lo)
              && KidEntries(db', NONE, level, done) == KidEntries(db, NONE, level, done)
  {
    if done != [] {
      assert forall id :: InRange(id, level, lo, LastOr(done, lo)) ==> !InRange(id, level, LastOr(done, lo), name);
      KidsFrame(db, NONE, db', NONE, level, done, e1, lo);
    }
  }

  lemma TodoStays(db: Store, db': Store, delta: Store, level: nat, todo: seq<Bound>, e2: seq<nat>, mid: Bound,
                  name: Bound)
    requires KidNodes(db, delta, level, todo, e2, name) && DbOnlyIn(db, db', level, mid, name)
    ensures KidNodes(db', delta, level, todo, e2, name)
              && KidEntries(db', delta, level, todo) == KidEntries(db, delta, level, todo)
  {
    if todo != [] {
      assert forall id :: InRange(id, level, name, LastOr(todo, name)) ==> !InRange(id, level, mid, name);
      KidsFrame(db, delta, db', delta, level, todo, e2, name);
    }
  }

  /** `QLBTreeDelta::Commit` of a node that is not the root. */
  method CommitNode(db: Store, delta: Store, id: Id, ghost count: nat, ghost lo: Bound) returns (db': Store)
    requires NodeAt(db, delta, id.level, id.name, count, lo)
    ensures NodeAt(db', NONE, id.level, id.name, count, lo)
    ensures EntriesAt(db', NONE, id.level, id.name) == EntriesAt(db, delta, id.level, id.name)
    ensures DbOnlyIn(db, db', id.level, lo, id.name) && Copied(db, delta, db')
    decreases id.level, 1
  {
    if id !in delta {
      db' := db;
      NodeAtFrame(db, delta, db, NONE, id.level, id.name, count, lo);
      return;
    }
    var c := delta[id];
    var db1 := db[id := c];
    if c.Leaf? {
      db' := db1;
    } else {
      OwnRecord(db, delta, id, lo);
      db' := CommitKids(db1, delta, c, lo, id.name);
    }
  }

  /** Writing a node's own record does not touch what its children read. */
  lemma OwnRecord(db: Store, delta: Store, id: Id, lo: Bound)
    requires id in delta && delta[id].Meta? && Node(db, delta, delta[id], id.level, lo, id.name)
    ensures var db1 := db[id := delta[id]];
            && Node(db1, delta, delta[id], id.level, lo, id.name)
            && Entries(db1, delta, delta[id], id.level) == Entries(db, delta, delta[id], id.level)
            && DbOnlyIn(db, db1, id.level, lo, id.name)
  {
    NodeFrame(db, delta, db[id := delta[id]], delta, delta[id], id.level, lo, id.name);
  }

  /** The loop of `Commit` over the children of a meta node. */
  method CommitKids(db: Store, delta: Store, c: Chunk, ghost lo: Bound, ghost hi: Bound) returns (db': Store)
    requires c.Meta? && Node(db, delta, c, c.level, lo, hi)
    ensures Node(db', NONE, c, c.level, lo, hi) && Entries(db', NONE, c, c.level) == Entries(db, delta, c, c.level)
    ensures DbOnlyIn(db, db', c.level - 1, lo, hi) && Copied(db, delta, db')
    decreases c.level, 0
  {
    db' := db;
    ghost var kids := Kids(c);
    NoneCommitted(db, delta, c, lo, hi);
    for i := 0 to |c.keys|
      invariant Committing(db, db', delta, c.level - 1, kids[..i], c.elems[..i], kids[i..], c.elems[i..], lo)
      invariant Copied(db, delta, db')
    {
      db' := CommitOne(db', delta, Id(c.level - 1, At(c.keys[i])), i, c, lo, db);
    }
    if c.elems[|c.keys|] > 0 {
      db' := CommitOne(db', delta, Id(c.level - 1, Infi), |c.keys|, c, lo, db);
    }
    AllCommitted(db, db', delta, c, lo, hi);
  }

  /** One child of the loop. */
  method CommitOne(db: Store, delta: Store, id: Id, ghost i: nat, ghost c: Chunk, ghost lo: Bound, ghost was: Store)
    returns (db': Store)
    requires c.Meta? && c.level > 0 && |c.elems| == |c.keys| + 1 && i < |Kids(c)| && id == Id(c.level - 1, Kids(c)[i])
    requires Committing(was, db, delta, id.level, Kids(c)[..i], c.elems[..i], Kids(c)[i..], c.elems[i..], lo)
    ensures Committing(was, db', delta, id.level, Kids(c)[..i + 1], c.elems[..i + 1], Kids(c)[i + 1..],
              c.elems[i + 1..], lo)
    ensures Copied(db, delta, db')
    decreases id.level, 2
  {
    ghost var kids, elems := Kids(c), c.elems;
    assert NodeAt(db, delta, id.level, kids[i..][0], elems[i..][0], LastOr(kids[..i], lo));
    db' := CommitNode(db, delta, id, elems[i], LastOr(kids[..i], lo));
    CommitStep(was, db, db', delta, id.level, kids[..i], elems[..i], kids[i..], elems[i..], lo);
    assert kids[..i] + [kids[i..][0]] == kids[..i + 1] && elems[..i] + [elems[i..][0]] == elems[..i + 1];
    assert kids[i..][1..] == kids[i + 1..] && elems[i..][1..] == elems[i + 1..];
  }

  lemma NoneCommitted(db: Store, delta: Store, c: Chunk, lo: Bound, hi: Bound)
    requires c.Meta? && Node(db, delta, c, c.level, lo, hi)
    ensures Committing(db, db, delta, c.level - 1, Kids(c)[..0], c.elems[..0], Kids(c)[0..], c.elems[0..], lo)
  {
    var kids := Kids(c);
    assert kids[..0] == [] && kids[0..] == kids && [] + kids == kids && c.elems[..0] == [] && c.elems[0..] == c.elems;
    assert KidEntries(db, NONE, c.level - 1, []) == [];
    assert KidEntries(db, NONE, c.level - 1, kids[..0]) + KidEntries(db, delta, c.level - 1, kids)
             == KidEntries(db, delta, c.level - 1, kids);
  }

  lemma AllCommitted(was: Store, db: Store, delta: Store, c: Chunk, lo: Bound, hi: Bound)
    requires c.Meta? && Node(was, delta, c, c.level, lo, hi)
    requires var n := |Kids(c)|;
             n <= |c.elems| && Committing(was, db, delta, c.level - 1, Kids(c)[..n], c.elems[..n], Kids(c)[n..],
                 c.elems[n..], lo)
    ensures Node(db, NONE, c, c.level, lo, hi) && Entries(db, NONE, c, c.level) == Entries(was, delta, c, c.level)
    ensures DbOnlyIn(was, db, c.level - 1, lo, hi)
  {
    var kids, n := Kids(c), |Kids(c)|;
    assert kids[..n] == kids && kids[n..] == [] && kids + [] == kids;
    assert c.elems[..n] + c.elems[n..] == c.elems;
    KidsConcat(db, NONE, c.level - 1, kids, c.elems[..n], [], c.elems[n..], lo);
  }

  /** `TryGet` on node `c`. */
  method TryGet(db: Store, c: Chunk, key: int, ghost level: nat, ghost lo: Bound, ghost hi: Bound)
    returns (v: Option<Value>)
    requires Node(db, NONE, c, level, lo, hi) && Less(lo, At(key)) && Leq(At(key), hi)
    ensures v == Lookup(Entries(db, NONE, c, level), key)
    decreases level
  {
    if c.Leaf? {
      v := ScanLeaf(c.entries, key);
    } else {
      KeysAscend(db, NONE, c, level, lo, hi);
      var index := BinarySearch(c.keys, key, 0, |c.keys|);
      ghost var mid := ChildIs(db, NONE, c, level, lo, hi, key, index);
      var childId := Id(c.level - 1, if index == |c.keys| then Infi else At(c.keys[index]));
      v := TryGet(db, db[childId], key, level - 1, mid, childId.name);
      LookupInChild(db, NONE, c, level, lo, hi, key, index);
    }
  }

  /** The scan of a leaf stops at the first larger key. */
  method ScanLeaf(es: seq<Entry>, key: int) returns (v: Option<Value>)
    requires Sorted(es)
    ensures v == Lookup(es, key)
  {
    for i := 0 to |es|
      invariant forall j :: 0 <= j < i ==> es[j].key < key
    {
      if key == es[i].key {
        LookupAt(es, i);
        return Some(es[i].val);
      } else if key < es[i].key {
        break;
      }
    }
    assert forall j :: 0 <= j < |es| ==> es[j].key != key;
    LookupAbsent(es, key);
    v := None;
  }

  lemma LookupInChild(db: Store, delta: Store, c: Chunk, level: nat, lo: Bound, hi: Bound, key: int, i: nat)
    requires Node(db, delta, c, level, lo, hi) && c.Meta? && Less(lo, At(key)) && Leq(At(key), hi)
               && IsIndex(c.keys, key, i)
    ensures i < |Kids(c)| && Lookup(Entries(db, delta, c, level), key)
              == Lookup(EntriesAt(db, delta, level - 1, Kids(c)[i]), key)
  {
    ChildFor(db, delta, c, level, lo, hi, key, i);
    LookupAroundKid(db, delta, level - 1, Kids(c)[..i], c.elems[..i], Kids(c)[i], Kids(c)[i + 1..], c.elems[i + 1..],
        lo, key);
  }

  lemma LookupAroundKid(db: Store, delta: Store, level: nat, k1: seq<Bound>, e1: seq<nat>, name: Bound, k2: seq<Bound>,
                        e2: seq<nat>, lo: Bound, key: int)
    requires KidNodes(db, delta, level, k1, e1, lo) && KidNodes(db, delta, level, k2, e2, name)
    requires Less(LastOr(k1, lo), At(key)) && Leq(At(key), name)
    ensures Lookup(KidEntries(db, delta, level, k1 + ([name] + k2)), key)
              == Lookup(EntriesAt(db, delta, level, name), key)
  {
    var a, b, c := KidEntries(db, delta, level, k1), EntriesAt(db, delta, level, name),
        KidEntries(db, delta, level, k2);
    AllBelow(db, delta, level, k1, e1, lo, key);
    AllAbove(db, delta, level, k2, e2, name, key);
    LookupMiddle(a, b, c, key);
    AroundKid(db, delta, level, k1, name, k2);
  }

  lemma AroundKid(db: Store, delta: Store, level: nat, k1: seq<Bound>, name: Bound, k2: seq<Bound>)
    ensures KidEntries(db, delta, level, k1 + ([name] + k2))
         == KidEntries(db, delta, level, k1) + (EntriesAt(db, delta, level, name) + KidEntries(db, delta, level, k2))
  {
    EntriesConcat(db, delta, level, k1, [name] + k2);
    EntriesConcat(db, delta, level, [name], k2);
    OneKid(db, delta, level, name);
  }

  lemma LookupMiddle(a: seq<Entry>, b: seq<Entry>, c: seq<Entry>, key: int)
    requires forall i :: 0 <= i < |a| ==> a[i].key < key
    requires forall i :: 0 <= i < |c| ==> key < c[i].key
    ensures Lookup(a + (b + c), key) == Lookup(b, key)
  {
    LookupAbsent(a, key);
    LookupAbsent(c, key);
    LookupConcat(a, b + c, key);
    LookupConcat(b, c, key);
  }

  function PutAll(es: seq<Entry>, keys: seq<int>, vals: seq<Value>): seq<Entry>
    requires |keys| == |vals|
  {
    if keys == [] then es
    else Put(PutAll(es, keys[..|keys| - 1], vals[..|vals| - 1]), keys[|keys| - 1], vals[|vals| - 1])
  }

  /** The last value that a batch sets for `k`. */
  function LastSet(keys: seq<int>, vals: seq<Value>, k: int): Option<Value>
    requires |keys| == |vals|
  {
    if keys == [] then None
    else if keys[|keys| - 1] == k then Some(vals[|vals| - 1])
    else LastSet(keys[..|keys| - 1], vals[..|vals| - 1], k)
  }

  /** After a batch, a lookup gives the last value set for the key, or what it gave before. */
  lemma {:induction false} LookupPutAll(es: seq<Entry>, keys: seq<int>, vals: seq<Value>, k: int)
    requires Sorted(es) && |keys| == |vals|
    ensures Sorted(PutAll(es, keys, vals))
    ensures Lookup(PutAll(es, keys, vals), k)
         == if LastSet(keys, vals, k).Some? then LastSet(keys, vals, k) else Lookup(es, k)
  {
    if keys != [] {
      var n := |keys| - 1;
      LookupPutAll(es, keys[..n], vals[..n], k);
      LookupPut(PutAll(es, keys[..n], vals[..n]), keys[n], vals[n], k);
      PutBounds(PutAll(es, keys[..n], vals[..n]), keys[n], vals[n], NegInf, Infi);
    }
  }

  datatype Batch = Batch(keys: seq<int>, vals: seq<Value>)

  ghost predicate Batches(batches: seq<Batch>) {
    forall i :: 0 <= i < |batches| ==> |batches[i].keys| == |batches[i].vals|
  }

  /** The contents after a run of batch `Set`s on an empty tree. */
  ghost function ContentsAfter(batches: seq<Batch>): seq<Entry>
    requires Batches(batches)
  {
    if batches == [] then []
    else var n := |batches| - 1; PutAll(ContentsAfter(batches[..n]), batches[n].keys, batches[n].vals)
  }

  /** The value that the last batch to set `k` sets for it last. */
  ghost function LastSetIn(batches: seq<Batch>, k: int): Option<Value>
    requires Batches(batches)
  {
    if batches == [] then None
    else
      var n := |batches| - 1;
      var last := LastSet(batches[n].keys, batches[n].vals, k);
      if last.Some? then last else LastSetIn(batches[..n], k)
  }

  /** After any run of batches, a lookup gives the last value set for the key, or nothing. */
  lemma {:induction false} LookupAfterRun(batches: seq<Batch>, k: int)
    requires Batches(batches)
    ensures Sorted(ContentsAfter(batches)) && Lookup(ContentsAfter(batches), k) == LastSetIn(batches, k)
  {
    if batches != [] {
      var n := |batches| - 1;
      LookupAfterRun(batches[..n], k);
      LookupPutAll(ContentsAfter(batches[..n]), batches[n].keys, batches[n].vals, k);
    }
  }

  /** Entry `i` of batch `b` is the last one for `k`. */
  ghost predicate LastEntry(batches: seq<Batch>, b: nat, i: nat, k: int)
    requires Batches(batches)
  {
    && b < |batches| && i < |batches[b].keys| && batches[b].keys[i] == k
    && (forall j :: i < j < |batches[b].keys| ==> batches[b].keys[j] != k)
    && (forall c :: b < c < |batches| ==> k !in batches[c].keys)
  }

  /** That is: the value of the last entry for the key, and none without an entry. */
  lemma LookupLastEntry(batches: seq<Batch>, k: int)
    requires Batches(batches)
    ensures forall b: nat, i: nat :: LastEntry(batches, b, i, k) ==>
              Lookup(ContentsAfter(batches), k) == Some(batches[b].vals[i])
    ensures (forall b :: 0 <= b < |batches| ==> k !in batches[b].keys) ==> Lookup(ContentsAfter(batches), k) == None
  {
    LookupAfterRun(batches, k);
    forall b: nat, i: nat | LastEntry(batches, b, i, k) ensures LastSetIn(batches, k) == Some(batches[b].vals[i]) {
      LastSetInIs(batches, b, i, k);
    }
    if forall b :: 0 <= b < |batches| ==> k !in batches[b].keys { NoneSetIn(batches, k); }
  }

  lemma {:induction false} LastSetInIs(batches: seq<Batch>, b: nat, i: nat, k: int)
    requires Batches(batches) && LastEntry(batches, b, i, k)
    ensures LastSetIn(batches, k) == Some(batches[b].vals[i])
  {
    var n := |batches| - 1;
    if b < n {
      NoneSet(batches[n].keys, batches[n].vals, k);
      LastSetInIs(batches[..n], b, i, k);
    } else {
      LastSetIs(batches[n].keys, batches[n].vals, k, i);
    }
  }

  lemma {:induction false} NoneSetIn(batches: seq<Batch>, k: int)
    requires Batches(batches) && forall b :: 0 <= b < |batches| ==> k !in batches[b].keys
    ensures LastSetIn(batches, k) == None
  {
    if batches != [] {
      var n := |batches| - 1;
      NoneSet(batches[n].keys, batches[n].vals, k);
      NoneSetIn(batches[..n], k);
    }
  }

  lemma {:induction false} LastSetIs(keys: seq<int>, vals: seq<Value>, k: int, i: nat)
    requires |keys| == |vals| && i < |keys| && keys[i] == k && forall j :: i < j < |keys| ==> keys[j] != k
    ensures LastSet(keys, vals, k) == Some(vals[i])
  {
    if i < |keys| - 1 { LastSetIs(keys[..|keys| - 1], vals[..|vals| - 1], k, i); }
  }

  lemma {:induction false} NoneSet(keys: seq<int>, vals: seq<Value>, k: int)
    requires |keys| == |vals| && k !in keys
    ensures LastSet(keys, vals, k) == None
  {
    if keys != [] { NoneSet(keys[..|keys| - 1], vals[..|vals| - 1], k); }
  }

  /** The root after an insert: the single new node, or a new meta node over the two halves. */
  ghost predicate IsRoot(db: Store, delta: Store, root: Chunk, depth: nat, es: seq<Entry>) {
    Node(db, delta, root, depth, NegInf, Infi) && Entries(db, delta, root, depth) == es
  }

  lemma SameRoot(db: Store, delta: Store, r: InsertResult, level: nat)
    requires !r.isSplit && |r.elems| == 1 && Id(level, Infi) in delta
               && KidNodes(db, delta, level, [Infi], r.elems, NegInf)
    ensures IsRoot(db, delta, delta[Id(level, Infi)], level, KidEntries(db, delta, level, [Infi]))
  {
    OneKid(db, delta, level, Infi);
    assert NodeAt(db, delta, level, Infi, r.elems[0], NegInf);
  }

  lemma HigherRoot(db: Store, delta: Store, r: InsertResult, level: nat)
    requires r.isSplit && |r.elems| == 2 && KidNodes(db, delta, level, [At(r.splitKey), Infi], r.elems, NegInf)
    ensures var root := Meta(level + 1, [r.splitKey], r.elems);
            IsRoot(db, delta[Id(level + 1, Infi) := root], root, level + 1,
                KidEntries(db, delta, level, [At(r.splitKey), Infi]))
  {
    var root := Meta(level + 1, [r.splitKey], r.elems);
    LastCount(db, delta, level, [At(r.splitKey), Infi], r.elems, NegInf);
    assert Kids(root) == [At(r.splitKey), Infi];
    assert Node(db, delta, root, level + 1, NegInf, Infi);
    SamePut(db, delta, level + 1, Infi, root, NegInf, Infi);
    NodeFrame(db, delta, db, delta[Id(level + 1, Infi) := root], root, level + 1, NegInf, Infi);
  }

  class QLBTree {
    const fanout: nat
    const leafFanout: nat
    var db: Store
    var root: Chunk  // the record `ROOT`
    var delta: Store
    ghost var depth: nat

    ghost predicate Valid()
      reads this
    {
      && fanout >= 1 && leafFanout >= 1 && delta == NONE && Node(db, NONE, root, depth, NegInf, Infi)
      && Sized(root, fanout, leafFanout) && Bounded(db, fanout, leafFanout)
    }

    /** All entries, in key order. */
    ghost function Contents(): seq<Entry>
      reads this
    {
      Entries(db, NONE, root, depth)
    }

    constructor (fanout: nat, leafFanout: nat)
      requires fanout >= 1 && leafFanout >= 1
      ensures Valid() && Contents() == []
    {
      this.fanout, this.leafFanout := fanout, leafFanout;
      db, root, delta, depth := map[], Leaf([], None), NONE, 0;
    }

    method Get(key: int) returns (v: Option<Value>)
      requires Valid()
      ensures v == Lookup(Contents(), key)
    {
      v := TryGet(db, root, key, depth, NegInf, Infi);
    }

    /** `numElements` of the root: the number of distinct keys. */
    method NumElements() returns (n: nat)
      requires Valid()
      ensures n == |Contents()| && Sorted(Contents())
    {
      NodeEntries(db, NONE, root, depth, NegInf, Infi);
      if root.Leaf? {
        n := |root.entries|;
      } else {
        n := Sum(root.elems);
        SumIsCount(db, NONE, depth - 1, Kids(root), root.elems, NegInf);
      }
    }

    /** The batch `Set`. */
    method Set(keys: seq<int>, vals: seq<Value>) returns (ok: bool)
      requires Valid() && |keys| == |vals|
      modifies this
      ensures Valid() && ok == (keys != [])
      ensures Contents() == PutAll(old(Contents()), keys, vals)
    {
      if |keys| == 0 {
        return false;
      }
      var newRoot, overlay, rootDepth := InsertAll(db, root, keys, vals, fanout, leafFanout, depth);
      root := newRoot;
      if newRoot.Meta? {
        db := CommitKids(db, overlay, newRoot, NegInf, Infi);
      }
      delta, depth := NONE, rootDepth;
      ok := true;
    }
  }

  /** The loop of the batch `Set`: inserts into the overlay, growing a new root when the root splits. */
  method InsertAll(db: Store, root: Chunk, keys: seq<int>, vals: seq<Value>, fanout: nat, leafFanout: nat,
                   ghost depth: nat)
    returns (newRoot: Chunk, delta: Store, ghost depth': nat)
    requires fanout >= 1 && leafFanout >= 1 && |keys| == |vals| && Node(db, NONE, root, depth, NegInf, Infi)
    requires Sized(root, fanout, leafFanout) && Bounded(db, fanout, leafFanout)
    ensures Sized(newRoot, fanout, leafFanout) && Bounded(delta, fanout, leafFanout)
    ensures IsRoot(db, delta, newRoot, depth', PutAll(Entries(db, NONE, root, depth), keys, vals))
  {
    newRoot, delta, depth' := root, NONE, depth;
    for i := 0 to |keys|
      invariant Sized(newRoot, fanout, leafFanout) && Bounded(delta, fanout, leafFanout)
      invariant IsRoot(db, delta, newRoot, depth', PutAll(Entries(db, NONE, root, depth), keys[..i], vals[..i]))
    {
      assert keys[..i + 1][..i] == keys[..i] && vals[..i + 1][..i] == vals[..i];
      newRoot, delta, depth' := InsertAtRoot(db, delta, newRoot, keys[i], vals[i], fanout, leafFanout, depth');
    }
    assert keys[..|keys|] == keys && vals[..|keys|] == vals;
  }

  method InsertAtRoot(db: Store, delta: Store, root: Chunk, key: int, value: Value, fanout: nat, leafFanout: nat,
                      ghost depth: nat)
    returns (newRoot: Chunk, delta': Store, ghost depth': nat)
    requires fanout >= 1 && leafFanout >= 1 && Node(db, delta, root, depth, NegInf, Infi)
    requires Sized(root, fanout, leafFanout) && Bounded(db, fanout, leafFanout) && Bounded(delta, fanout, leafFanout)
    ensures Sized(newRoot, fanout, leafFanout) && Bounded(delta', fanout, leafFanout)
    ensures IsRoot(db, delta', newRoot, depth', Put(Entries(db, delta, root, depth), key, value))
  {
    var delta1, r := Insert(db, delta, root, key, value, fanout, leafFanout, depth, NegInf, Infi);
    var rootId;
    if r.isSplit {
      rootId := Id(r.level + 1, Infi);
      var chunk := Meta(r.level + 1, [r.splitKey], r.elems);
      HigherRoot(db, delta1, r, depth);
      delta', depth' := delta1[rootId := chunk], depth + 1;
    } else {
      rootId := Id(r.level, Infi);
      SameRoot(db, delta1, r, depth);
      delta', depth' := delta1, depth;
    }
    newRoot := delta'[rootId];
  }
}
