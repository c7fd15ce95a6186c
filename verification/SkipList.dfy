/** LedgerDB's skip list (ledger/ledgerdb/skiplist/skiplist.cc): one record per node in a key-value store, with
    forward pointers that are the keys of the next nodes, in descending order. The head record holds the key
    that was inserted first. */
module SkipList {
  import opened Options

  type Value(==, !new, 0)

  const MAX_LEVEL := 16

  datatype Name = Head | At(key: int)

  /** A record: -1 stands for the end of a level. */
  datatype Node = Node(key: int, value: Value, forward: seq<int>)

  type Records = map<Name, Node>

  /** The nodes behind the head, and on how many levels each one is. */
  datatype Item = Item(key: int, value: Value, height: nat)

  /** What the list holds: the head, once there is one, and the other nodes in order. */
  datatype Contents = Contents(first: Option<Item>, rest: seq<Item>)

  ghost predicate Descending(items: seq<Item>) {
    forall i, j :: 0 <= i < j < |items| ==> items[i].key > items[j].key
  }

  ghost predicate Leveled(items: seq<Item>) {
    forall i :: 0 <= i < |items| ==> items[i].key >= 0 && 1 <= items[i].height <= MAX_LEVEL
  }

  ghost predicate IsList(first: Item, items: seq<Item>) {
    && Descending(items) && Leveled(items) && first.key >= 0 && first.height == MAX_LEVEL
    && forall i :: 0 <= i < |items| ==> items[i].key != first.key
  }

  /** The first node from index `from` on that is on level `l`. */
  ghost function Next(items: seq<Item>, from: nat, l: nat): int
    decreases |items| - from
  {
    if from >= |items| then -1
    else if items[from].height > l then items[from].key
    else Next(items, from + 1, l)
  }

  /** Position `p` is just after item `p - 1`, or after the head. */
  ghost function ItemAt(first: Item, items: seq<Item>, p: nat): Item
    requires p <= |items|
  {
    if p == 0 then first else items[p - 1]
  }

  ghost function NameAt(items: seq<Item>, p: nat): Name
    requires p <= |items|
  {
    if p == 0 then Head else At(items[p - 1].key)
  }

  ghost function RecordAt(first: Item, items: seq<Item>, p: nat): Node
    requires p <= |items|
  {
    var it := ItemAt(first, items, p);
    Node(it.key, it.value, seq(it.height, l requires 0 <= l < it.height => Next(items, p, l)))
  }

  ghost predicate Stored(db: Records, first: Item, items: seq<Item>) {
    forall p :: 0 <= p <= |items| ==> NameAt(items, p) in db && db[NameAt(items, p)] == RecordAt(first, items, p)
  }

  // ---- The levels.

  /** The keys on level `l`, in order. */
  ghost function Level(items: seq<Item>, l: nat): seq<int> {
    if items == [] then []
    else (if items[0].height > l then [items[0].key] else []) + Level(items[1..], l)
  }

  ghost predicate Sublist(a: seq<int>, b: seq<int>) {
    if a == [] then true
    else if b == [] then false
    else if a[0] == b[0] then Sublist(a[1..], b[1..])
    else Sublist(a, b[1..])
  }

  ghost predicate Falls(a: seq<int>) { forall i, j :: 0 <= i < j < |a| ==> a[i] > a[j] }

  lemma {:induction false} LevelBounds(items: seq<Item>, l: nat, k: int)
    requires forall i :: 0 <= i < |items| ==> items[i].key < k
    ensures forall i :: 0 <= i < |Level(items, l)| ==> Level(items, l)[i] < k
  {
    if items != [] { LevelBounds(items[1..], l, k); }
  }

  lemma {:induction false} LevelFalls(items: seq<Item>, l: nat)
    requires Descending(items)
    ensures Falls(Level(items, l))
  {
    if items != [] {
      LevelFalls(items[1..], l);
      LevelBounds(items[1..], l, items[0].key);
    }
  }

  lemma {:induction false} LevelNests(items: seq<Item>, l: nat)
    requires Descending(items)
    ensures Sublist(Level(items, l + 1), Level(items, l))
  {
    if items != [] {
      LevelNests(items[1..], l);
      LevelBounds(items[1..], l + 1, items[0].key);
      OneMore(items[0].key, Level(items[1..], l + 1), Level(items[1..], l));
      assert forall a: seq<int> :: [] + a == a;
    }
  }

  lemma OneMore(x: int, up: seq<int>, low: seq<int>)
    requires Sublist(up, low) && forall i :: 0 <= i < |up| ==> up[i] != x
    ensures Sublist([x] + up, [x] + low) && Sublist(up, [x] + low)
  {
    assert ([x] + up)[1..] == up && ([x] + low)[1..] == low;
  }

  lemma {:induction false} LowestLevel(items: seq<Item>)
    requires Leveled(items)
    ensures |Level(items, 0)| == |items| && forall i :: 0 <= i < |items| ==> Level(items, 0)[i] == items[i].key
  {
    if items != [] { LowestLevel(items[1..]); }
  }

  /** Each level is a strictly descending sublist of the one below, and the lowest has all the nodes. */
  lemma LevelsNest(items: seq<Item>, l: nat)
    requires Descending(items) && Leveled(items)
    ensures Falls(Level(items, l)) && Sublist(Level(items, l + 1), Level(items, l))
    ensures |Level(items, 0)| == |items| && forall i :: 0 <= i < |items| ==> Level(items, 0)[i] == items[i].key
  {
    LevelFalls(items, l);
    LevelNests(items, l);
    LowestLevel(items);
  }

  /** The pointers of level `l` lead from each node to the next on that level. */
  lemma {:induction false} NextIsNext(items: seq<Item>, from: nat, l: nat)
    requires from <= |items|
    ensures Next(items, from, l) == if Level(items[from..], l) == [] then -1 else Level(items[from..], l)[0]
    decreases |items| - from
  {
    if from < |items| {
      NextIsNext(items, from + 1, l);
      assert items[from..][1..] == items[from + 1..];
    }
  }

  // ---- Searching.

  /** Where the pointer at level `l` leads. */
  lemma {:induction false} NextIndex(items: seq<Item>, from: nat, l: nat) returns (q: nat)
    requires from <= |items| && Next(items, from, l) != -1
    ensures from <= q < |items| && items[q].key == Next(items, from, l) && items[q].height > l
    ensures forall j :: from <= j < q ==> items[j].height <= l
    decreases |items| - from
  {
    if items[from].height > l { q := from; } else { q := NextIndex(items, from + 1, l); }
  }

  lemma {:induction false} NextNone(items: seq<Item>, from: nat, l: nat)
    requires Leveled(items) && Next(items, from, l) == -1
    ensures forall j :: from <= j < |items| ==> items[j].height <= l
    decreases |items| - from
  {
    if from < |items| { NextNone(items, from + 1, l); }
  }

  /** `nodeLevel`: the number of leading levels that are not empty, at least one. */
  method NodeLevel(forward: seq<int>) returns (level: nat)
    requires |forward| > 0
    ensures 1 <= level <= |forward| && (forall i :: 0 < i < level ==> forward[i] != -1)
    ensures level < |forward| ==> forward[0] == -1 || forward[level] == -1
  {
    level := 1;
    if forward[0] == -1 {
      return;
    }
    for i := 1 to |forward|
      invariant level == i && forall j :: 0 < j < level ==> forward[j] != -1
    {
      if forward[i] != -1 {
        level := level + 1;
      } else {
        break;
      }
    }
  }

  /** The value held for a key. */
  ghost function Lookup(c: Contents, k: int): Option<Value> {
    if c.first.None? then None
    else if c.first.value.key == k then Some(c.first.value.value)
    else LookupRest(c.rest, k)
  }

  ghost function LookupRest(items: seq<Item>, k: int): Option<Value> {
    if items == [] then None else if items[0].key == k then Some(items[0].value) else LookupRest(items[1..], k)
  }

  lemma {:induction false} LookupRestAt(items: seq<Item>, i: nat)
    requires Descending(items) && i < |items|
    ensures LookupRest(items, items[i].key) == Some(items[i].value)
  {
    if i > 0 { LookupRestAt(items[1..], i - 1); }
  }

  lemma {:induction false} LookupRestNone(items: seq<Item>, k: int)
    requires forall i :: 0 <= i < |items| ==> items[i].key != k
    ensures LookupRest(items, k) == None
  {
    if items != [] { LookupRestNone(items[1..], k); }
  }

  /** The record found for a key is its node's. */
  ghost predicate Finds(first: Item, items: seq<Item>, k: int, r: Option<Node>) {
    match r
    case None => forall p :: 0 <= p <= |items| ==> ItemAt(first, items, p).key != k
    case Some(n) => exists p :: 0 <= p <= |items| && ItemAt(first, items, p).key == k && n == RecordAt(first, items, p)
  }

  /** All nodes before position `p` have larger keys. */
  ghost predicate Passed(items: seq<Item>, p: nat, k: int) {
    p <= |items| && forall j :: 0 <= j < p ==> items[j].key > k
  }

  /** Moving along level `l` to a node whose key is still too large. */
  lemma Advance(items: seq<Item>, p: nat, l: nat, k: int) returns (p': nat)
    requires Descending(items) && Leveled(items) && Passed(items, p, k) && Next(items, p, l) > -1
               && Next(items, p, l) > k
    ensures p < p' && Passed(items, p', k) && items[p' - 1].key == Next(items, p, l) && items[p' - 1].height > l
    ensures forall j :: p <= j < p' - 1 ==> items[j].height <= l
  {
    var q := NextIndex(items, p, l);
    p' := q + 1;
  }

  /** At the lowest level nothing is skipped. */
  lemma NotThere(first: Item, items: seq<Item>, p: nat, k: int)
    requires IsList(first, items) && Passed(items, p, k) && first.key != k && Next(items, p, 0) < k
    ensures Finds(first, items, k, None)
  {
    if p < |items| { assert Next(items, p, 0) == items[p].key; }
    forall q | 0 <= q <= |items| ensures ItemAt(first, items, q).key != k {
      if q > p { assert q - 1 == p || items[q - 1].key < items[p].key; }
    }
  }

  method Search(db: Records, k: int, ghost first: Item, ghost items: seq<Item>) returns (r: Option<Node>)
    requires IsList(first, items) && Stored(db, first, items) && k >= 0
    ensures Finds(first, items, k, r)
  {
    assert NameAt(items, 0) in db;
    var head := db[Head];
    if head.key == k {
      assert ItemAt(first, items, 0).key == k;
      return Some(head);
    }
    var i := NodeLevel(head.forward);
    ghost var p := 0;
    while i > 0
      invariant Passed(items, p, k) && head == RecordAt(first, items, p)
      invariant i <= |head.forward|
      invariant i == 0 ==> Next(items, p, 0) < k
    {
      i := i - 1;
      while head.forward[i] > -1 && head.forward[i] > k
        invariant Passed(items, p, k) && head == RecordAt(first, items, p) && i < |head.forward|
        decreases |items| - p
      {
        p := Advance(items, p, i, k);
        assert NameAt(items, p) == At(head.forward[i]);
        head := db[At(head.forward[i])];
      }
      if head.forward[i] == k {
        ghost var q := NextIndex(items, p, i);
        assert NameAt(items, q + 1) == At(k) && ItemAt(first, items, q + 1).key == k;
        return Some(db[At(head.forward[i])]);
      }
    }
    NotThere(first, items, p, k);
    r := None;
  }

  // ---- Inserting.

  ghost function Spliced(items: seq<Item>, r: nat, it: Item): seq<Item>
    requires r <= |items|
  {
    items[..r] + [it] + items[r..]
  }

  /** Where a new key goes. */
  ghost predicate IsPlace(items: seq<Item>, r: nat, k: int) {
    Passed(items, r, k) && forall j :: r <= j < |items| ==> items[j].key < k
  }

  lemma {:induction false} SomePlace(items: seq<Item>, k: int) returns (r: nat)
    requires Descending(items) && forall i :: 0 <= i < |items| ==> items[i].key != k
    ensures IsPlace(items, r, k)
  {
    if items == [] || items[0].key < k {
      r := 0;
    } else {
      var s := SomePlace(items[1..], k);
      r := s + 1;
      assert forall j :: 0 <= j < r ==> items[j].key > k by {
        forall j | 0 < j < r ensures items[j].key > k { assert items[1..][j - 1] == items[j]; }
      }
      forall j | r <= j < |items| ensures items[j].key < k { assert items[1..][j - 1] == items[j]; }
    }
  }

  /** Behind the new node nothing changes. */
  lemma {:induction false} NextBehind(items: seq<Item>, r: nat, it: Item, from: nat, l: nat)
    requires r <= from <= |items|
    ensures Next(Spliced(items, r, it), from + 1, l) == Next(items, from, l)
    decreases |items| - from
  {
    if from < |items| {
      assert Spliced(items, r, it)[from + 1] == items[from];
      NextBehind(items, r, it, from + 1, l);
    }
  }

  /** In front of it a pointer changes exactly if it passes over the new node on one of its levels. */
  lemma {:induction false} NextBefore(items: seq<Item>, r: nat, it: Item, from: nat, l: nat)
    requires from <= r <= |items|
    ensures (exists j :: from <= j < r && items[j].height > l) ==>
              Next(Spliced(items, r, it), from, l) == Next(items, from, l)
    ensures (forall j :: from <= j < r ==> items[j].height <= l) ==>
      && Next(items, from, l) == Next(items, r, l)
      && Next(Spliced(items, r, it), from, l) == if it.height > l then it.key else Next(items, r, l)
    decreases r - from
  {
    var items' := Spliced(items, r, it);
    if from < r {
      assert items'[from] == items[from];
      NextBefore(items, r, it, from + 1, l);
    } else {
      assert items'[r] == it;
      NextBehind(items, r, it, r, l);
    }
  }

  /** The record at position `p` once the levels from `i` up have been changed. */
  ghost function Mixed(first: Item, items: seq<Item>, r: nat, it: Item, p: nat, i: nat): Node
    requires p <= r <= |items|
  {
    var at := ItemAt(first, items, p);
    Node(at.key, at.value, seq(at.height, l requires 0 <= l < at.height =>
      if l < i then Next(items, p, l) else Next(Spliced(items, r, it), p, l)))
  }

  /** At level `l` the pointer at position `q` needs no change. */
  ghost predicate Settled(items: seq<Item>, r: nat, it: Item, q: nat, l: nat)
    requires q <= r <= |items|
  {
    Next(Spliced(items, r, it), q, l) == Next(items, q, l)
  }

  /** A collected record is that of some position in front of the new node, with its levels from `i` up changed. */
  ghost predicate Changed(first: Item, items: seq<Item>, r: nat, it: Item, n: Name, node: Node, i: nat) {
    r <= |items| && exists q :: 0 <= q <= r && n == NameAt(items, q) && node == Mixed(first, items, r, it, q, i)
  }

  /** The search has changed the levels from `i` up: the changed records are collected, and they are all the
      records that change at those levels. */
  ghost predicate Collected(first: Item, items: seq<Item>, r: nat, it: Item, update: Records, i: nat) {
    && r <= |items|
    && (forall n :: n in update ==> Changed(first, items, r, it, n, update[n], i))
    && (forall q, l :: 0 <= q <= r && i <= l < ItemAt(first, items, q).height ==>
          Settled(items, r, it, q, l) || NameAt(items, q) in update)
  }

  lemma SameName(items: seq<Item>, p: nat, q: nat)
    requires Descending(items) && p <= |items| && q <= |items| && NameAt(items, p) == NameAt(items, q)
    ensures p == q
  {
  }

  /** The record that the search loads at position `p`. */
  lemma Loaded(db: Records, first: Item, items: seq<Item>, r: nat, it: Item, update: Records, p: nat, i: nat)
    requires Descending(items) && Stored(db, first, items) && Collected(first, items, r, it, update, i) && p <= r
    ensures NameAt(items, p) in db
    ensures (if NameAt(items, p) in update then update[NameAt(items, p)] else db[NameAt(items, p)])
              == Mixed(first, items, r, it, p, i)
  {
    var n := NameAt(items, p);
    if n in update {
      assert Changed(first, items, r, it, n, update[n], i);
      var q :| 0 <= q <= r && n == NameAt(items, q) && update[n] == Mixed(first, items, r, it, q, i);
      SameName(items, p, q);
    } else {
      assert db[n] == RecordAt(first, items, p);
      forall l | 0 <= l < ItemAt(first, items, p).height
        ensures RecordAt(first, items, p).forward[l] == Mixed(first, items, r, it, p, i).forward[l]
      {
        assert l >= i ==> Settled(items, r, it, p, l);
      }
      assert RecordAt(first, items, p).forward == Mixed(first, items, r, it, p, i).forward;
    }
  }

  /** Where the search stops on level `l`, and only there, the pointer has to change. */
  lemma LevelDone(first: Item, items: seq<Item>, r: nat, it: Item, p: nat, l: nat)
    requires Descending(items) && Leveled(items) && IsPlace(items, r, it.key) && p <= r && it.key >= 0 && it.height > l
    requires ItemAt(first, items, p).height > l && Next(items, p, l) <= it.key
    ensures forall q :: 0 <= q <= r && q != p && ItemAt(first, items, q).height > l ==> Settled(items, r, it, q, l)
    ensures Next(items, p, l) == Next(items, r, l) && Next(Spliced(items, r, it), p, l) == it.key
  {
    assert forall j :: p <= j < r ==> items[j].height <= l by {
      if Next(items, p, l) == -1 {
        NextNone(items, p, l);
      } else {
        var q := NextIndex(items, p, l);
        assert q >= r;
      }
    }
    NextBefore(items, r, it, p, l);
    forall q | 0 <= q <= r && q != p && ItemAt(first, items, q).height > l ensures Settled(items, r, it, q, l) {
      NextBefore(items, r, it, q, l);
      if q < p { assert items[p - 1].height > l; }
    }
  }

  /** The records collected so far, with level `l` changed at position `p`. */
  lemma CollectedMore(first: Item, items: seq<Item>, r: nat, it: Item, update: Records, p: nat, l: nat)
    requires Descending(items) && Collected(first, items, r, it, update, l + 1) && p <= r
    requires forall q :: 0 <= q <= r && q != p && ItemAt(first, items, q).height > l ==> Settled(items, r, it, q, l)
    ensures Collected(first, items, r, it, update[NameAt(items, p) := Mixed(first, items, r, it, p, l)], l)
  {
    var here := NameAt(items, p);
    var update' := update[here := Mixed(first, items, r, it, p, l)];
    forall n | n in update' ensures Changed(first, items, r, it, n, update'[n], l) {
      if n != here {
        assert Changed(first, items, r, it, n, update[n], l + 1);
        var q :| 0 <= q <= r && n == NameAt(items, q) && update[n] == Mixed(first, items, r, it, q, l + 1);
        assert Mixed(first, items, r, it, q, l + 1).forward == Mixed(first, items, r, it, q, l).forward by {
          assert ItemAt(first, items, q).height > l ==> Settled(items, r, it, q, l);
        }
      }
    }
  }

  /** Writing the collected records and the new one gives the new list. */
  lemma Written(db: Records, first: Item, items: seq<Item>, r: nat, it: Item, update: Records)
    requires IsList(first, items) && Stored(db, first, items) && IsPlace(items, r, it.key) && it.key != first.key
    requires Collected(first, items, r, it, update, 0) && it.key >= 0
    ensures var items' := Spliced(items, r, it);
            Stored((db + update)[At(it.key) := RecordAt(first, items', r + 1)], first, items')
  {
    var items' := Spliced(items, r, it);
    var db' := (db + update)[At(it.key) := RecordAt(first, items', r + 1)];
    forall p | 0 <= p <= |items'|
      ensures NameAt(items', p) in db' && db'[NameAt(items', p)] == RecordAt(first, items', p)
    {
      if p <= r {
        WrittenBefore(db, first, items, r, it, update, p);
      } else if p > r + 1 {
        WrittenBehind(db, first, items, r, it, update, p - 1);
      }
    }
  }

  lemma WrittenBefore(db: Records, first: Item, items: seq<Item>, r: nat, it: Item, update: Records, p: nat)
    requires Descending(items) && Stored(db, first, items) && IsPlace(items, r, it.key) && p <= r
    requires Collected(first, items, r, it, update, 0)
    ensures var n := NameAt(Spliced(items, r, it), p);
            n != At(it.key) && n in db + update && (db + update)[n] == RecordAt(first, Spliced(items, r, it), p)
  {
    var items' := Spliced(items, r, it);
    assert p > 0 ==> items'[p - 1] == items[p - 1];
    Loaded(db, first, items, r, it, update, p, 0);
    assert Mixed(first, items, r, it, p, 0).forward == RecordAt(first, items', p).forward;
  }

  lemma WrittenBehind(db: Records, first: Item, items: seq<Item>, r: nat, it: Item, update: Records, p: nat)
    requires Descending(items) && Stored(db, first, items) && IsPlace(items, r, it.key) && r < p <= |items|
    requires Collected(first, items, r, it, update, 0)
    ensures var n := NameAt(Spliced(items, r, it), p + 1);
            n != At(it.key) && n in db + update && (db + update)[n] == RecordAt(first, Spliced(items, r, it), p + 1)
  {
    var items' := Spliced(items, r, it);
    var n := NameAt(items, p);
    assert items'[p] == items[p - 1];
    assert n !in update by {
      if n in update {
        assert Changed(first, items, r, it, n, update[n], 0);
        var q :| 0 <= q <= r && n == NameAt(items, q);
        SameName(items, p, q);
      }
    }
    forall l | 0 <= l < items[p - 1].height
      ensures Next(items', p + 1, l) == Next(items, p, l)
    {
      NextBehind(items, r, it, p, l);
    }
    assert RecordAt(first, items', p + 1).forward == RecordAt(first, items, p).forward;
  }

  /** The walk along one level, past all larger keys. */
  method Walk(db: Records, update: Records, start: Node, at: Name, i: nat, k: int, ghost first: Item,
              ghost items: seq<Item>, ghost r: nat, ghost it: Item, ghost p: nat)
    returns (head: Node, name: Name, ghost p': nat)
    requires IsList(first, items) && Stored(db, first, items) && IsPlace(items, r, k) && it.key == k
    requires Collected(first, items, r, it, update, i + 1) && p <= r && ItemAt(first, items, p).height > i
    requires start == Mixed(first, items, r, it, p, i + 1) && at == NameAt(items, p)
    ensures Next(items, p', i) <= -1 || Next(items, p', i) <= k
    ensures p' <= r && ItemAt(first, items, p').height > i
    ensures head == Mixed(first, items, r, it, p', i + 1) && name == NameAt(items, p')
  {
    head, name, p' := start, at, p;
    while head.forward[i] > -1 && head.forward[i] > k
      invariant p' <= r && ItemAt(first, items, p').height > i
      invariant head == Mixed(first, items, r, it, p', i + 1) && name == NameAt(items, p')
      decreases r - p'
    {
      name := At(head.forward[i]);
      p' := Advance(items, p', i, k);
      Loaded(db, first, items, r, it, update, p', i + 1);
      head := if name in update then update[name] else db[name];
    }
  }

  /** The insertion search: from the new node's highest level down. */
  method Splice(db: Records, k: int, v: Value, level: nat, ghost first: Item, ghost items: seq<Item>, ghost r: nat)
    returns (db': Records)
    requires IsList(first, items) && Stored(db, first, items) && k >= 0 && k != first.key && 1 <= level <= MAX_LEVEL
    requires IsPlace(items, r, k)
    ensures Stored(db', first, Spliced(items, r, Item(k, v, level)))
  {
    ghost var it, p := Item(k, v, level), 0;
    assert NameAt(items, 0) in db;
    var update: Records, name, head := map[], Head, db[Head];
    var forward := seq(level, _ => -1);
    assert head == Mixed(first, items, r, it, 0, level) by { NothingAbove(first, items, r, it); }
    assert Collected(first, items, r, it, update, level) by { NothingAbove(first, items, r, it); }
    var i := level;
    while i > 0
      invariant 0 <= i <= level && 0 <= p <= r && Collected(first, items, r, it, update, i)
      invariant ItemAt(first, items, p).height >= i && head == Mixed(first, items, r, it, p, i)
                  && name == NameAt(items, p)
      invariant |forward| == level && forall l :: i <= l < level ==> forward[l] == Next(items, r, l)
    {
      i := i - 1;
      head, name, p := Walk(db, update, head, name, i, k, first, items, r, it, p);
      LevelDone(first, items, r, it, p, i);
      forward := forward[i := head.forward[i]];
      head := head.(forward := head.forward[i := k]);
      assert head.forward == Mixed(first, items, r, it, p, i).forward;
      CollectedMore(first, items, r, it, update, p, i);
      update := update[name := head];
    }
    db' := PutAll(db, update);
    db' := db'[At(k) := Node(k, v, forward)];
    NewRecord(first, items, r, it, forward);
    Written(db, first, items, r, it, update);
  }

  lemma NothingAbove(first: Item, items: seq<Item>, r: nat, it: Item)
    requires r <= |items|
    ensures Collected(first, items, r, it, map[], it.height)
    ensures Mixed(first, items, r, it, 0, it.height) == RecordAt(first, items, 0)
  {
    forall q, l | 0 <= q <= r && it.height <= l ensures Settled(items, r, it, q, l) { NextBefore(items, r, it, q, l); }
    forall l | 0 <= l < first.height ensures l >= it.height ==> Next(Spliced(items, r, it), 0, l) == Next(items, 0, l) {
      assert l >= it.height ==> Settled(items, r, it, 0, l);
    }
    assert Mixed(first, items, r, it, 0, it.height).forward == RecordAt(first, items, 0).forward;
  }

  lemma NewRecord(first: Item, items: seq<Item>, r: nat, it: Item, forward: seq<int>)
    requires r <= |items| && |forward| == it.height && forall l :: 0 <= l < it.height ==>
               forward[l] == Next(items, r, l)
    ensures RecordAt(first, Spliced(items, r, it), r + 1) == Node(it.key, it.value, forward)
  {
    forall l | 0 <= l < it.height
      ensures Next(Spliced(items, r, it), r + 1, l) == forward[l]
    {
      NextBehind(items, r, it, r, l);
    }
    assert RecordAt(first, Spliced(items, r, it), r + 1).forward == forward;
  }

  method PutAll(db: Records, update: Records) returns (db': Records)
    ensures db' == db + update
  {
    db' := db;
    var rest := update.Keys;
    while rest != {}
      invariant rest <= update.Keys && db' == db + (update - rest)
    {
      var n :| n in rest;
      rest := rest - {n};
      db' := db'[n := update[n]];
    }
    assert update - rest == update;
  }

  // ---- The list.

  /** The contents after an insertion: a first key becomes the head; a key that is there gets the new value,
      except at the head; any other key goes to its place. */
  ghost predicate Inserts(c: Contents, k: int, v: Value, c': Contents) {
    if c.first.None? then c' == Contents(Some(Item(k, v, MAX_LEVEL)), [])
    else if c.first.value.key == k then c' == c
    else
      && c'.first == c.first
      && ((exists i :: 0 <= i < |c.rest| && c.rest[i].key == k && c'.rest == c.rest[i := c.rest[i].(value := v)])
          || ((exists r, h ::
                 IsPlace(c.rest, r, k) && 1 <= h <= MAX_LEVEL && c'.rest == Spliced(c.rest, r, Item(k, v, h)))
              && forall i :: 0 <= i < |c.rest| ==> c.rest[i].key != k))
  }

  ghost predicate IsContents(c: Contents) {
    if c.first.None? then c.rest == [] else IsList(c.first.value, c.rest)
  }

  /** Insertion is map update, unless the key is that of an existing head: then it changes nothing. */
  lemma InsertIsUpdate(c: Contents, k: int, v: Value, c': Contents, k': int)
    requires IsContents(c) && k >= 0 && Inserts(c, k, v, c')
    ensures IsContents(c')
    ensures c.first.None? || c.first.value.key != k ==> Lookup(c', k') == if k' == k then Some(v) else Lookup(c, k')
    ensures c.first.Some? && c.first.value.key == k ==> Lookup(c', k') == Lookup(c, k')
  {
    if c.first.Some? && c.first.value.key != k {
      if i :| 0 <= i < |c.rest| && c.rest[i].key == k && c'.rest == c.rest[i := c.rest[i].(value := v)] {
        LookupReplaced(c.rest, i, v, k');
        ReplacedIsList(c.first.value, c.rest, i, v);
      } else {
        var r, h :| IsPlace(c.rest, r, k) && 1 <= h <= MAX_LEVEL && c'.rest == Spliced(c.rest, r, Item(k, v, h));
        LookupSpliced(c.rest, r, Item(k, v, h), k');
        SplicedIsList(c.first.value, c.rest, r, Item(k, v, h));
      }
    }
  }

  lemma ReplacedIsList(first: Item, items: seq<Item>, i: nat, v: Value)
    requires IsList(first, items) && i < |items|
    ensures IsList(first, items[i := items[i].(value := v)])
  {
  }

  /** So an insertion can be read back exactly if the key is not that of an existing head, or its value is not new. */
  lemma InsertReadBack(c: Contents, k: int, v: Value, c': Contents)
    requires IsContents(c) && k >= 0 && Inserts(c, k, v, c')
    ensures Lookup(c', k) == Some(v) <==> c.first.None? || c.first.value.key != k || c.first.value.value == v
  {
    InsertIsUpdate(c, k, v, c', k);
  }

  /** For instance: with key 5 at the head, inserting 5 again leaves the old value to be found. */
  lemma HeadKeepsItsValue(a: Value, b: Value, c': Contents)
    requires a != b && Inserts(Contents(Some(Item(5, a, MAX_LEVEL)), []), 5, b, c')
    ensures Lookup(c', 5) == Some(a) && Lookup(c', 5) != Some(b)
  {
    InsertReadBack(Contents(Some(Item(5, a, MAX_LEVEL)), []), 5, b, c');
  }

  lemma SplicedIsList(first: Item, items: seq<Item>, r: nat, it: Item)
    requires IsList(first, items) && IsPlace(items, r, it.key) && it.key >= 0 && 1 <= it.height <= MAX_LEVEL
               && it.key != first.key
    ensures IsList(first, Spliced(items, r, it))
  {
  }

  lemma {:induction false} LookupReplaced(items: seq<Item>, i: nat, v: Value, k': int)
    requires Descending(items) && i < |items|
    ensures LookupRest(items[i := items[i].(value := v)], k')
         == if k' == items[i].key then Some(v) else LookupRest(items, k')
  {
    var items' := items[i := items[i].(value := v)];
    if i > 0 {
      LookupReplaced(items[1..], i - 1, v, k');
      assert items'[1..] == items[1..][i - 1 := items[i].(value := v)];
    } else {
      assert items'[1..] == items[1..];
    }
  }

  lemma {:induction false} LookupSpliced(items: seq<Item>, r: nat, it: Item, k': int)
    requires r <= |items| && forall j :: 0 <= j < r ==> items[j].key != it.key
    ensures LookupRest(Spliced(items, r, it), k') == if k' == it.key then Some(it.value) else LookupRest(items, k')
  {
    var items' := Spliced(items, r, it);
    if r > 0 {
      LookupSpliced(items[1..], r - 1, it, k');
      assert items'[1..] == Spliced(items[1..], r - 1, it);
    } else {
      assert items'[1..] == items;
    }
  }

  /** Giving a node another value leaves the pointers alone. */
  lemma {:induction false} NextReplaced(items: seq<Item>, i: nat, v: Value, from: nat, l: nat)
    requires i < |items|
    ensures Next(items[i := items[i].(value := v)], from, l) == Next(items, from, l)
    decreases |items| - from
  {
    if from < |items| { NextReplaced(items, i, v, from + 1, l); }
  }

  lemma StoredReplaced(db: Records, first: Item, items: seq<Item>, i: nat, v: Value)
    requires IsList(first, items) && Stored(db, first, items) && i < |items|
    ensures var items' := items[i := items[i].(value := v)];
            && IsList(first, items')
            && Stored(db[At(items[i].key) := RecordAt(first, items, i + 1).(value := v)], first, items')
  {
    var items' := items[i := items[i].(value := v)];
    var db' := db[At(items[i].key) := RecordAt(first, items, i + 1).(value := v)];
    forall p | 0 <= p <= |items'|
      ensures NameAt(items', p) in db' && db'[NameAt(items', p)] == RecordAt(first, items', p)
    {
      forall l ensures Next(items', p, l) == Next(items, p, l) { NextReplaced(items, i, v, p, l); }
      assert NameAt(items', p) == NameAt(items, p);
      assert db[NameAt(items, p)] == RecordAt(first, items, p);
      assert RecordAt(first, items', p).forward == RecordAt(first, items, p).forward;
      if p != i + 1 && NameAt(items, p) == NameAt(items, i + 1) { SameName(items, p, i + 1); }
    }
  }

  ghost predicate Represents(db: Records, c: Contents) {
    && IsContents(c) && (Head in db <==> c.first.Some?)
    && (c.first.Some? ==> Stored(db, c.first.value, c.rest))
  }

  /** The key is there: its record is written again with the new value. */
  method Reassign(db: Records, k: int, v: Value, x: Node, ghost c: Contents) returns (db': Records, ghost c': Contents)
    requires Represents(db, c) && c.first.Some? && Finds(c.first.value, c.rest, k, Some(x))
    ensures Represents(db', c') && Inserts(c, k, v, c')
  {
    db' := db[At(k) := x.(value := v)];
    ghost var first, rest := c.first.value, c.rest;
    if first.key == k {
      HeadKeyRecord(db, first, rest, x.(value := v));
      c' := c;
    } else {
      ghost var p :| 0 <= p <= |rest| && ItemAt(first, rest, p).key == k && x == RecordAt(first, rest, p);
      StoredReplaced(db, first, rest, p - 1, v);
      c' := c.(rest := rest[p - 1 := rest[p - 1].(value := v)]);
    }
  }

  method InsertNew(db: Records, k: int, v: Value, level: nat, ghost c: Contents)
    returns (db': Records, ghost c': Contents)
    requires Represents(db, c) && c.first.Some? && Finds(c.first.value, c.rest, k, None) && k >= 0
               && 1 <= level <= MAX_LEVEL
    ensures Represents(db', c') && Inserts(c, k, v, c') && Item(k, v, level) in c'.rest
  {
    ghost var first, rest := c.first.value, c.rest;
    assert forall i :: 0 <= i < |rest| ==> rest[i].key == ItemAt(first, rest, i + 1).key;
    assert first.key == ItemAt(first, rest, 0).key;
    ghost var r := SomePlace(rest, k);
    db' := Splice(db, k, v, level, first, rest, r);
    SplicedIsList(first, rest, r, Item(k, v, level));
    c' := c.(rest := Spliced(rest, r, Item(k, v, level)));
    assert NameAt(c'.rest, 0) in db';
  }

  /** A run of insertions into an empty list: `cs[n]` are the contents after `n` of them. */
  ghost predicate IsRun(cs: seq<Contents>, ks: seq<int>, vs: seq<Value>) {
    && |cs| == |ks| + 1 && |vs| == |ks| && cs[0] == Contents(None, [])
    && forall n :: 0 <= n < |ks| ==> ks[n] >= 0 && Inserts(cs[n], ks[n], vs[n], cs[n + 1])
  }

  /** After any run of insertions of distinct keys, whatever the levels, each key has the value inserted for it,
      and no other key has any. */
  lemma {:induction false} DistinctKeysRun(cs: seq<Contents>, ks: seq<int>, vs: seq<Value>, n: nat, k: int)
    requires IsRun(cs, ks, vs) && n <= |ks| && forall i, j :: 0 <= i < j < |ks| ==> ks[i] != ks[j]
    ensures IsContents(cs[n]) && (n > 0 ==> cs[n].first.Some? && cs[n].first.value.key == ks[0])
    ensures k !in ks[..n] ==> Lookup(cs[n], k) == None
    ensures forall j :: 0 <= j < n && ks[j] == k ==> Lookup(cs[n], k) == Some(vs[j])
  {
    if n > 0 {
      DistinctKeysRun(cs, ks, vs, n - 1, k);
      InsertIsUpdate(cs[n - 1], ks[n - 1], vs[n - 1], cs[n], k);
      assert ks[..n] == ks[..n - 1] + [ks[n - 1]];
    }
  }

  class SkipList {
    var db: Records
    ghost var contents: Contents

    ghost predicate Valid() reads this { Represents(db, contents) }

    constructor ()
      ensures Valid() && contents == Contents(None, [])
    {
      db, contents := map[], Contents(None, []);
    }

    method Find(k: int) returns (r: Option<Node>)
      requires Valid() && k >= 0
      ensures Lookup(contents, k) == if r.None? then None else Some(r.value.value)
      ensures r.Some? ==> r.value.key == k
    {
      if Head !in db {
        return None;
      }
      r := Search(db, k, contents.first.value, contents.rest);
      FoundValue(contents, k, r);
    }

    /** `level` is the random level of a new node. */
    method Insert(k: int, v: Value, level: nat)
      requires Valid() && k >= 0 && 1 <= level <= MAX_LEVEL
      modifies this
      ensures Valid() && Inserts(old(contents), k, v, contents)
      ensures old(contents).first.Some? && Lookup(old(contents), k).None? ==> Item(k, v, level) in contents.rest
    {
      if Head !in db {
        db := db[Head := Node(k, v, seq(MAX_LEVEL, _ => -1))];
        contents := Contents(Some(Item(k, v, MAX_LEVEL)), []);
        assert RecordAt(contents.first.value, [], 0).forward == seq(MAX_LEVEL, _ => -1);
        return;
      }
      var x := Search(db, k, contents.first.value, contents.rest);
      FoundValue(contents, k, x);
      if x.Some? {
        db, contents := Reassign(db, k, v, x.value, contents);
      } else {
        db, contents := InsertNew(db, k, v, level, contents);
      }
    }

    /** The head, then the other records in order, at most `n` in all. */
    method Scan(n: nat) returns (res: seq<Node>)
      requires Valid()
      ensures contents.first.None? ==> res == []
      ensures contents.first.Some? ==>
        && |res| == (if n <= |contents.rest| then n else |contents.rest| + 1)
        && forall p :: 0 <= p < |res| ==> res[p] == RecordAt(contents.first.value, contents.rest, p)
    {
      res := [];
      var next := Head;
      for i := 0 to n
        invariant i == 0 ==> next == Head
        invariant contents.first.None? ==> i == 0
        invariant |res| == i
        invariant contents.first.Some? ==>
          && i <= |contents.rest| && next == NameAt(contents.rest, i)
          && forall p :: 0 <= p < i ==> res[p] == RecordAt(contents.first.value, contents.rest, p)
      {
        if next !in db {
          return;
        }
        var node := db[next];
        res := res + [node];
        assert node == RecordAt(contents.first.value, contents.rest, i);
        if node.forward[0] < 0 {
          NextNone(contents.rest, i, 0);
          assert i == |contents.rest|;
          return;
        }
        next := At(node.forward[0]);
        assert node.forward[0] == Next(contents.rest, i, 0);
      }
    }
  }

  lemma FoundValue(c: Contents, k: int, r: Option<Node>)
    requires IsContents(c) && c.first.Some? && Finds(c.first.value, c.rest, k, r)
    ensures Lookup(c, k) == if r.None? then None else Some(r.value.value)
    ensures r.Some? ==> r.value.key == k
  {
    var first, rest := c.first.value, c.rest;
    if r.None? {
      assert first.key == ItemAt(first, rest, 0).key;
      assert forall i :: 0 <= i < |rest| ==> rest[i].key == ItemAt(first, rest, i + 1).key;
      LookupRestNone(rest, k);
    } else {
      var p :| 0 <= p <= |rest| && ItemAt(first, rest, p).key == k && r.value == RecordAt(first, rest, p);
      if p > 0 { LookupRestAt(rest, p - 1); }
    }
  }

  /** A record under the head's own key belongs to no position. */
  lemma HeadKeyRecord(db: Records, first: Item, items: seq<Item>, node: Node)
    requires IsList(first, items) && Stored(db, first, items)
    ensures Stored(db[At(first.key) := node], first, items)
  {
    forall p | 0 <= p <= |items| ensures NameAt(items, p) != At(first.key) {}
  }
}
