/** The shape of the stored tree, and how a changed child changes its parent. */
module BTreeNodes {
  import opened Options
  import opened BTreeEntries

  datatype Id = Id(level: nat, name: Bound)

  datatype Chunk =
    | Leaf(entries: seq<Entry>, next: Option<Id>)
    | Meta(level: nat, keys: seq<int>, elems: seq<nat>)

  type Store = map<Id, Chunk>

  /** A read during a batch: the dirty overlay first, then the database. */
  function Get(db: Store, delta: Store, id: Id): Chunk
    requires id in delta || id in db
  {
    if id in delta then delta[id] else db[id]
  }

  function Names(keys: seq<int>): seq<Bound> {
    seq(|keys|, i requires 0 <= i < |keys| => At(keys[i]))
  }

  /** The names of the children of a meta node: its keys, and `_INFI_` if it is the last of its level. */
  function Kids(c: Chunk): seq<Bound>
    requires c.Meta? && |c.elems| == |c.keys| + 1
  {
    Names(c.keys) + if c.elems[|c.keys|] > 0 then [Infi] else []
  }

  function Sum(elems: seq<nat>): nat {
    if elems == [] then 0 else elems[0] + Sum(elems[1..])
  }

  /** The entries below a node, and below a list of nodes of one level, in order. */
  ghost function Entries(db: Store, delta: Store, c: Chunk, level: nat): seq<Entry>
    decreases level, 0
  {
    if c.Leaf? then c.entries
    else if level == 0 || |c.elems| != |c.keys| + 1 then []
    else KidEntries(db, delta, level - 1, Kids(c))
  }

  ghost function KidEntries(db: Store, delta: Store, level: nat, kids: seq<Bound>): seq<Entry>
    decreases level, 2 + |kids|
  {
    if kids == [] then [] else EntriesAt(db, delta, level, kids[0]) + KidEntries(db, delta, level, kids[1..])
  }

  ghost function EntriesAt(db: Store, delta: Store, level: nat, name: Bound): seq<Entry>
    decreases level, 1
  {
    var id := Id(level, name);
    if id in delta || id in db then Entries(db, delta, Get(db, delta, id), level) else []
  }

  /** No dirty node of level at most `level` is named in the range. */
  ghost predicate Clean(delta: Store, level: nat, lo: Bound, hi: Bound) {
    forall id :: id in delta && id.level <= level && Less(lo, id.name) ==> !Leq(id.name, hi)
  }

  /** `c` is a well-formed node of `level` for the keys above `lo` up to `hi`. A node that is not the last
      of its level is named by its maximum key; exactly the last one is named `_INFI_`. */
  ghost predicate Node(db: Store, delta: Store, c: Chunk, level: nat, lo: Bound, hi: Bound)
    decreases level, 0
  {
    && Less(lo, hi)
    && match c
       case Leaf(es, next) =>
         && level == 0 && Sorted(es) && Within(es, lo, hi) && (next.Some? <==> hi.At?)
         && (hi.At? ==> es != [] && es[|es| - 1].key == hi.key)
       case Meta(l, keys, elems) =>
         && l == level > 0 && keys != [] && |elems| == |keys| + 1
         && (elems[|keys|] > 0 <==> hi.Infi?) && (hi.At? ==> keys[|keys| - 1] == hi.key)
         && KidNodes(db, delta, level - 1, Kids(c), elems, lo)
  }

  /** Consecutive well-formed nodes of one level, with their numbers of entries. */
  ghost predicate KidNodes(db: Store, delta: Store, level: nat, kids: seq<Bound>, elems: seq<nat>, lo: Bound)
    decreases level, 2 + |kids|
  {
    kids == [] ||
    (&& |elems| >= |kids| && NodeAt(db, delta, level, kids[0], elems[0], lo)
     && KidNodes(db, delta, level, kids[1..], elems[1..], kids[0]))
  }

  /** The node of that name is well-formed and has `count > 0` entries. If it is not dirty then nothing
      below it is. */
  ghost predicate NodeAt(db: Store, delta: Store, level: nat, name: Bound, count: nat, lo: Bound)
    decreases level, 1
  {
    var id := Id(level, name);
    && (id in delta || (id in db && Clean(delta, level, lo, name)))
    && Node(db, delta, Get(db, delta, id), level, lo, name)
    && count == |EntriesAt(db, delta, level, name)| > 0
  }

  /** Entries of well-formed nodes are sorted and in range. */
  lemma {:induction false} NodeEntries(db: Store, delta: Store, c: Chunk, level: nat, lo: Bound, hi: Bound)
    requires Node(db, delta, c, level, lo, hi)
    ensures Sorted(Entries(db, delta, c, level)) && Within(Entries(db, delta, c, level), lo, hi)
    decreases level, 0
  {
    if c.Meta? {
      KidsEntries(db, delta, level - 1, Kids(c), c.elems, lo);
    }
  }

  lemma {:induction false} KidsEntries(db: Store, delta: Store, level: nat, kids: seq<Bound>, elems: seq<nat>,
                                       lo: Bound)
    requires KidNodes(db, delta, level, kids, elems, lo)
    ensures Sorted(KidEntries(db, delta, level, kids))
    ensures kids != [] ==>
          Within(KidEntries(db, delta, level, kids), lo, kids[|kids| - 1]) && Less(lo, kids[|kids| - 1])
    ensures kids == [] ==> KidEntries(db, delta, level, kids) == []
    decreases level, 2 + |kids|
  {
    if kids != [] {
      NodeEntries(db, delta, Get(db, delta, Id(level, kids[0])), level, lo, kids[0]);
      KidsEntries(db, delta, level, kids[1..], elems[1..], kids[0]);
      SortedConcat(EntriesAt(db, delta, level, kids[0]), KidEntries(db, delta, level, kids[1..]), lo, kids[0],
          kids[|kids| - 1]);
    }
  }

  lemma SortedConcat(a: seq<Entry>, b: seq<Entry>, lo: Bound, m: Bound, hi: Bound)
    requires Sorted(a) && Sorted(b) && Within(a, lo, m) && (b == [] || Within(b, m, hi)) && Less(lo, m) && Leq(m, hi)
    ensures Sorted(a + b) && Within(a + b, lo, hi)
  {
    forall i, j | 0 <= i < j < |a + b|
      ensures (a + b)[i].key < (a + b)[j].key
    {
      if i < |a| <= j { assert Less(m, At(b[j - |a|].key)); }
    }
  }

  ghost predicate InRange(id: Id, level: nat, lo: Bound, hi: Bound) {
    id.level <= level && Less(lo, id.name) && Leq(id.name, hi)
  }

  /** In a range the same nodes are dirty, and the same records are read. */
  ghost predicate Same(db: Store, delta: Store, db': Store, delta': Store, level: nat, lo: Bound, hi: Bound) {
    && (forall id :: id in delta && InRange(id, level, lo, hi) ==> id in delta' && delta'[id] == delta[id])
    && (forall id :: id in delta' && InRange(id, level, lo, hi) ==> id in delta)
    && (forall id :: id in db && InRange(id, level, lo, hi) ==> id in db' && db'[id] == db[id])
  }

  lemma {:induction false} NodeFrame(db: Store, delta: Store, db': Store, delta': Store, c: Chunk, level: nat,
                                     lo: Bound, hi: Bound)
    requires Node(db, delta, c, level, lo, hi)
    requires level > 0 ==> Same(db, delta, db', delta', level - 1, lo, hi)
    ensures Node(db', delta', c, level, lo, hi) && Entries(db', delta', c, level) == Entries(db, delta, c, level)
    decreases level, 0
  {
    if c.Meta? {
      KidsEntries(db, delta, level - 1, Kids(c), c.elems, lo);
      KidsFrame(db, delta, db', delta', level - 1, Kids(c), c.elems, lo);
    }
  }

  lemma {:induction false} KidsFrame(db: Store, delta: Store, db': Store, delta': Store, level: nat, kids: seq<Bound>,
                                     elems: seq<nat>, lo: Bound)
    requires KidNodes(db, delta, level, kids, elems, lo)
    requires kids != [] ==> Same(db, delta, db', delta', level, lo, kids[|kids| - 1])
    ensures KidNodes(db', delta', level, kids, elems, lo)
    ensures KidEntries(db', delta', level, kids) == KidEntries(db, delta, level, kids)
    decreases level, 2 + |kids|
  {
    if kids != [] {
      var hi := kids[|kids| - 1];
      assert NodeAt(db, delta, level, kids[0], elems[0], lo);
      assert Node(db, delta, Get(db, delta, Id(level, kids[0])), level, lo, kids[0]);
      KidsEntries(db, delta, level, kids, elems, lo);
      KidsEntries(db, delta, level, kids[1..], elems[1..], kids[0]);
      SameNarrow(db, delta, db', delta', level, lo, hi, level, lo, kids[0]);
      SameNarrow(db, delta, db', delta', level, lo, hi, level, kids[0], hi);
      NodeAtFrame(db, delta, db', delta', level, kids[0], elems[0], lo);
      KidsFrame(db, delta, db', delta', level, kids[1..], elems[1..], kids[0]);
    }
  }

  lemma {:induction false} NodeAtFrame(db: Store, delta: Store, db': Store, delta': Store, level: nat, name: Bound,
                                       count: nat, lo: Bound)
    requires NodeAt(db, delta, level, name, count, lo) && Same(db, delta, db', delta', level, lo, name)
    ensures NodeAt(db', delta', level, name, count, lo)
    ensures EntriesAt(db', delta', level, name) == EntriesAt(db, delta, level, name)
    ensures Get(db', delta', Id(level, name)) == Get(db, delta, Id(level, name))
    decreases level, 1
  {
    assert InRange(Id(level, name), level, lo, name);
    if level > 0 { SameNarrow(db, delta, db', delta', level, lo, name, level - 1, lo, name); }
    NodeFrame(db, delta, db', delta', Get(db, delta, Id(level, name)), level, lo, name);
    if Id(level, name) !in delta {
      assert forall id :: id in delta' && InRange(id, level, lo, name) ==> id in delta;
    }
  }

  lemma SameNarrow(db: Store, delta: Store, db': Store, delta': Store, level: nat, lo: Bound, hi: Bound, level': nat,
                   lo': Bound, hi': Bound)
    requires Same(db, delta, db', delta', level, lo, hi) && level' <= level && Leq(lo, lo') && Leq(hi', hi)
    ensures Same(db, delta, db', delta', level', lo', hi')
  {
    assert forall id :: InRange(id, level', lo', hi') ==> InRange(id, level, lo, hi);
  }

  lemma {:induction false} EntriesConcat(db: Store, delta: Store, level: nat, k1: seq<Bound>, k2: seq<Bound>)
    ensures KidEntries(db, delta, level, k1 + k2) == KidEntries(db, delta, level, k1) + KidEntries(db, delta, level, k2)
  {
    if k1 == [] {
      assert k1 + k2 == k2;
    } else {
      EntriesConcat(db, delta, level, k1[1..], k2);
      assert (k1 + k2)[1..] == k1[1..] + k2 && (k1 + k2)[0] == k1[0];
      Associate(EntriesAt(db, delta, level, k1[0]), KidEntries(db, delta, level, k1[1..]),
                KidEntries(db, delta, level, k2));
    }
  }

  function LastOr(kids: seq<Bound>, lo: Bound): Bound { if kids == [] then lo else kids[|kids| - 1] }

  /** A list of nodes is well-formed when its two parts are. */
  lemma {:induction false} KidsConcat(db: Store, delta: Store, level: nat, k1: seq<Bound>, e1: seq<nat>, k2: seq<Bound>,
                                      e2: seq<nat>, lo: Bound)
    requires |k1| == |e1| && |k2| <= |e2|
    ensures KidNodes(db, delta, level, k1 + k2, e1 + e2, lo) <==>
            KidNodes(db, delta, level, k1, e1, lo) && KidNodes(db, delta, level, k2, e2, LastOr(k1, lo))
    decreases |k1|
  {
    if k1 == [] {
      assert k1 + k2 == k2 && e1 + e2 == e2;
    } else {
      KidsConcat(db, delta, level, k1[1..], e1[1..], k2, e2, k1[0]);
      assert (k1 + k2)[1..] == k1[1..] + k2 && (e1 + e2)[1..] == e1[1..] + e2;
      assert LastOr(k1[1..], k1[0]) == LastOr(k1, lo);
    }
  }

  lemma {:induction false} SumIsCount(db: Store, delta: Store, level: nat, kids: seq<Bound>, elems: seq<nat>, lo: Bound)
    requires KidNodes(db, delta, level, kids, elems, lo) && |kids| <= |elems| <= |kids| + 1
    requires |elems| == |kids| + 1 ==> elems[|kids|] == 0
    ensures Sum(elems) == |KidEntries(db, delta, level, kids)|
    decreases |kids|
  {
    if kids != [] {
      SumIsCount(db, delta, level, kids[1..], elems[1..], kids[0]);
    } else if elems != [] {
      assert elems[1..] == [];
    }
  }

  /** Only dirty nodes in the range may differ. */
  ghost predicate OnlyIn(delta: Store, delta': Store, level: nat, lo: Bound, hi: Bound) {
    && (forall id :: id in delta ==> id in delta' && (delta'[id] == delta[id] || InRange(id, level, lo, hi)))
    && (forall id :: id in delta' ==> id in delta || InRange(id, level, lo, hi))
  }

  lemma SameOutside(db: Store, delta: Store, delta': Store, level: nat, lo: Bound, hi: Bound, lo': Bound, hi': Bound)
    requires OnlyIn(delta, delta', level, lo, hi) && (Leq(hi', lo) || Leq(hi, lo'))
    ensures Same(db, delta, db, delta', level, lo', hi')
  {
    assert forall id :: InRange(id, level, lo', hi') ==> !InRange(id, level, lo, hi);
  }

  /** Replacing one node by the node or nodes that now hold its entries with `k` set to `v`. */
  lemma ReplaceKid(db: Store, delta: Store, delta': Store, level: nat, k1: seq<Bound>, e1: seq<nat>, name: Bound,
                   count: nat, k2: seq<Bound>, e2: seq<nat>, news: seq<Bound>, counts: seq<nat>, lo: Bound, k: int,
                   v: Value)
    requires |k1| == |e1| && |k2| <= |e2| && |news| == |counts| && LastOr(news, lo) == name && news != []
    requires KidNodes(db, delta, level, k1 + ([name] + k2), e1 + ([count] + e2), lo)
    requires Less(LastOr(k1, lo), At(k)) && Leq(At(k), name)
    requires OnlyIn(delta, delta', level, LastOr(k1, lo), name)
    requires KidNodes(db, delta', level, news, counts, LastOr(k1, lo))
    requires KidEntries(db, delta', level, news) == Put(EntriesAt(db, delta, level, name), k, v)
    ensures KidNodes(db, delta', level, k1 + (news + k2), e1 + (counts + e2), lo)
    ensures KidEntries(db, delta', level, k1 + (news + k2))
              == Put(KidEntries(db, delta, level, k1 + ([name] + k2)), k, v)
  {
    OthersStay(db, delta, delta', level, k1, e1, name, count, k2, e2, lo);
    JoinKids(db, delta', level, k1, e1, news, counts, k2, e2, lo);
    ReplacedEntries(db, delta, delta', level, k1, e1, name, k2, e2, news, lo, k, v);
  }

  /** The children beside the one that changes. */
  lemma OthersStay(db: Store, delta: Store, delta': Store, level: nat, k1: seq<Bound>, e1: seq<nat>, name: Bound,
                   count: nat, k2: seq<Bound>, e2: seq<nat>, lo: Bound)
    requires |k1| == |e1| && |k2| <= |e2|
    requires KidNodes(db, delta, level, k1 + ([name] + k2), e1 + ([count] + e2), lo)
    requires OnlyIn(delta, delta', level, LastOr(k1, lo), name)
    ensures KidNodes(db, delta, level, k1, e1, lo) && KidNodes(db, delta, level, k2, e2, name)
    ensures KidNodes(db, delta', level, k1, e1, lo) && KidNodes(db, delta', level, k2, e2, name)
    ensures KidEntries(db, delta', level, k1) == KidEntries(db, delta, level, k1)
    ensures KidEntries(db, delta', level, k2) == KidEntries(db, delta, level, k2)
  {
    CutKid(db, delta, level, k1, e1, name, count, k2, e2, lo);
    KidsOutside(db, delta, delta', level, k1, e1, lo, LastOr(k1, lo), name);
    KidsOutside(db, delta, delta', level, k2, e2, name, LastOr(k1, lo), name);
  }

  lemma CutKid(db: Store, delta: Store, level: nat, k1: seq<Bound>, e1: seq<nat>, name: Bound, count: nat,
               k2: seq<Bound>, e2: seq<nat>, lo: Bound)
    requires |k1| == |e1| && |k2| <= |e2|
    requires KidNodes(db, delta, level, k1 + ([name] + k2), e1 + ([count] + e2), lo)
    ensures KidNodes(db, delta, level, k1, e1, lo) && NodeAt(db, delta, level, name, count, LastOr(k1, lo))
    ensures KidNodes(db, delta, level, k2, e2, name)
  {
    KidsConcat(db, delta, level, k1, e1, [name] + k2, [count] + e2, lo);
    assert ([name] + k2)[1..] == k2 && ([count] + e2)[1..] == e2;
  }

  lemma JoinKids(db: Store, delta: Store, level: nat, k1: seq<Bound>, e1: seq<nat>, k2: seq<Bound>, e2: seq<nat>,
                 k3: seq<Bound>, e3: seq<nat>, lo: Bound)
    requires |k1| == |e1| && |k2| == |e2| && |k3| <= |e3|
    requires KidNodes(db, delta, level, k1, e1, lo) && KidNodes(db, delta, level, k2, e2, LastOr(k1, lo))
    requires KidNodes(db, delta, level, k3, e3, LastOr(k2, LastOr(k1, lo)))
    ensures KidNodes(db, delta, level, k1 + (k2 + k3), e1 + (e2 + e3), lo)
  {
    KidsConcat(db, delta, level, k2, e2, k3, e3, LastOr(k1, lo));
    KidsConcat(db, delta, level, k1, e1, k2 + k3, e2 + e3, lo);
  }

  lemma KidsOutside(db: Store, delta: Store, delta': Store, level: nat, kids: seq<Bound>, elems: seq<nat>, lo: Bound,
                    from: Bound, to: Bound)
    requires KidNodes(db, delta, level, kids, elems, lo) && OnlyIn(delta, delta', level, from, to)
    requires LastOr(kids, lo) == from || to == lo
    ensures KidNodes(db, delta', level, kids, elems, lo)
    ensures KidEntries(db, delta', level, kids) == KidEntries(db, delta, level, kids)
  {
    if kids != [] {
      SameOutside(db, delta, delta', level, from, to, lo, kids[|kids| - 1]);
      KidsFrame(db, delta, db, delta', level, kids, elems, lo);
    }
  }

  lemma ReplacedEntries(db: Store, delta: Store, delta': Store, level: nat, k1: seq<Bound>, e1: seq<nat>, name: Bound,
                        k2: seq<Bound>, e2: seq<nat>, news: seq<Bound>, lo: Bound, k: int, v: Value)
    requires KidNodes(db, delta, level, k1, e1, lo) && KidNodes(db, delta, level, k2, e2, name)
    requires KidEntries(db, delta', level, k1) == KidEntries(db, delta, level, k1)
    requires KidEntries(db, delta', level, k2) == KidEntries(db, delta, level, k2)
    requires KidEntries(db, delta', level, news) == Put(EntriesAt(db, delta, level, name), k, v)
    requires Less(LastOr(k1, lo), At(k)) && Leq(At(k), name)
    ensures KidEntries(db, delta', level, k1 + (news + k2))
              == Put(KidEntries(db, delta, level, k1 + ([name] + k2)), k, v)
  {
    var a, b, c := KidEntries(db, delta, level, k1), EntriesAt(db, delta, level, name),
        KidEntries(db, delta, level, k2);
    assert KidEntries(db, delta, level, k1 + ([name] + k2)) == a + (b + c) by {
      EntriesConcat(db, delta, level, k1, [name] + k2);
      EntriesConcat(db, delta, level, [name], k2);
      OneKid(db, delta, level, name);
    }
    assert KidEntries(db, delta', level, k1 + (news + k2)) == a + (Put(b, k, v) + c) by {
      EntriesConcat(db, delta', level, k1, news + k2);
      EntriesConcat(db, delta', level, news, k2);
    }
    AllBelow(db, delta, level, k1, e1, lo, k);
    AllAbove(db, delta, level, k2, e2, name, k);
    PutMiddle(a, b, c, k, v);
  }

  lemma OneKid(db: Store, delta: Store, level: nat, name: Bound)
    ensures KidEntries(db, delta, level, [name]) == EntriesAt(db, delta, level, name)
  {
    assert KidEntries(db, delta, level, [name][1..]) == [];
  }

  lemma AllBelow(db: Store, delta: Store, level: nat, kids: seq<Bound>, elems: seq<nat>, lo: Bound, k: int)
    requires KidNodes(db, delta, level, kids, elems, lo) && Less(LastOr(kids, lo), At(k))
    ensures forall i :: 0 <= i < |KidEntries(db, delta, level, kids)| ==> KidEntries(db, delta, level, kids)[i].key < k
  {
    KidsEntries(db, delta, level, kids, elems, lo);
    var es := KidEntries(db, delta, level, kids);
    forall i | 0 <= i < |es| ensures es[i].key < k {
      assert Leq(At(es[i].key), kids[|kids| - 1]);
    }
  }

  lemma AllAbove(db: Store, delta: Store, level: nat, kids: seq<Bound>, elems: seq<nat>, lo: Bound, k: int)
    requires KidNodes(db, delta, level, kids, elems, lo) && Leq(At(k), lo)
    ensures forall i :: 0 <= i < |KidEntries(db, delta, level, kids)| ==> k < KidEntries(db, delta, level, kids)[i].key
  {
    KidsEntries(db, delta, level, kids, elems, lo);
    var es := KidEntries(db, delta, level, kids);
    forall i | 0 <= i < |es| ensures k < es[i].key {
      assert Less(lo, At(es[i].key));
    }
  }

  /** A meta node whose children are well-formed, once put under its name. */
  lemma MetaStored(db: Store, delta: Store, c: Chunk, level: nat, lo: Bound, hi: Bound)
    requires c.Meta? && Node(db, delta, c, level, lo, hi)
    ensures var delta' := delta[Id(level, hi) := c];
            && NodeAt(db, delta', level, hi, Sum(c.elems), lo)
            && EntriesAt(db, delta', level, hi) == Entries(db, delta, c, level)
  {
    var delta' := delta[Id(level, hi) := c];
    KidsEntries(db, delta, level - 1, Kids(c), c.elems, lo);
    SamePut(db, delta, level, hi, c, lo, Kids(c)[|Kids(c)| - 1]);
    KidsFrame(db, delta, db, delta', level - 1, Kids(c), c.elems, lo);
    SumIsCount(db, delta, level - 1, Kids(c), c.elems, lo);
    assert NodeAt(db, delta, level - 1, Kids(c)[0], c.elems[0], lo);
    assert Node(db, delta', c, level, lo, hi);
  }

  lemma SamePut(db: Store, delta: Store, level: nat, name: Bound, c: Chunk, lo: Bound, hi: Bound)
    requires level > 0
    ensures Same(db, delta, db, delta[Id(level, name) := c], level - 1, lo, hi)
  {
  }
}
