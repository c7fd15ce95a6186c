/** QLDB's B+-tree (ledger/qldb/ql_btree.cc, ql_btree_node.cc, ql_btree_delta.h). Nodes are chunks in a
    flat store, named by level and maximum key, or `_INFI_` for the last node of a level; inserts go to a
    dirty overlay that is committed from the root. Keys are only compared, and appear as integers. */
module BTreeEntries {
  import opened Options

  type Value(==, !new, 0)

  datatype Entry = Entry(key: int, val: Value)

  /** Name of a node within its level, and bounds of key ranges: ranges are open below, closed above. */
  datatype Bound = NegInf | At(key: int) | Infi

  predicate Less(a: Bound, b: Bound) {
    a != b && (a.NegInf? || b.Infi? || (a.At? && b.At? && a.key < b.key))
  }

  predicate Leq(a: Bound, b: Bound) { a == b || Less(a, b) }

  ghost predicate Sorted(es: seq<Entry>) {
    forall i, j :: 0 <= i < j < |es| ==> es[i].key < es[j].key
  }

  ghost predicate Within(es: seq<Entry>, lo: Bound, hi: Bound) {
    forall i :: 0 <= i < |es| ==> Less(lo, At(es[i].key)) && Leq(At(es[i].key), hi)
  }

  /** The sorted list with `k` set to `v`. */
  function Put(es: seq<Entry>, k: int, v: Value): seq<Entry> {
    if es == [] then [Entry(k, v)]
    else if k < es[0].key then [Entry(k, v)] + es
    else if k == es[0].key then [Entry(k, v)] + es[1..]
    else [es[0]] + Put(es[1..], k, v)
  }

  function Lookup(es: seq<Entry>, k: int): Option<Value> {
    if es == [] then None
    else if es[0].key == k then Some(es[0].val)
    else Lookup(es[1..], k)
  }

  lemma {:induction false} PutBounds(es: seq<Entry>, k: int, v: Value, lo: Bound, hi: Bound)
    requires Sorted(es) && Within(es, lo, hi) && Less(lo, At(k)) && Leq(At(k), hi)
    ensures Sorted(Put(es, k, v)) && Within(Put(es, k, v), lo, hi)
    ensures Put(es, k, v) != []
    decreases |es|
  {
    if es == [] {
    } else if k < es[0].key {
      InFront(Entry(k, v), es, lo, hi);
    } else if k == es[0].key {
      InFront(Entry(k, v), es[1..], lo, hi);
    } else {
      PutBounds(es[1..], k, v, At(es[0].key), hi);
      InFront(es[0], Put(es[1..], k, v), lo, hi);
    }
  }

  lemma InFront(e: Entry, es: seq<Entry>, lo: Bound, hi: Bound)
    requires Sorted(es) && Within(es, At(e.key), hi) && Less(lo, At(e.key)) && Leq(At(e.key), hi)
    ensures Sorted([e] + es) && Within([e] + es, lo, hi)
  {
    var all := [e] + es;
    forall i | 0 < i < |all| ensures e.key < all[i].key && Leq(At(all[i].key), hi) {
      assert all[i] == es[i - 1];
    }
  }

  lemma {:induction false} PutLeft(a: seq<Entry>, b: seq<Entry>, k: int, v: Value)
    requires forall i :: 0 <= i < |b| ==> k < b[i].key
    ensures Put(a + b, k, v) == Put(a, k, v) + b
  {
    if a == [] {
      assert a + b == b;
    } else {
      assert (a + b)[1..] == a[1..] + b;
      if k > a[0].key {
        PutLeft(a[1..], b, k, v);
        assert [a[0]] + (Put(a[1..], k, v) + b) == [a[0]] + Put(a[1..], k, v) + b;
      } else if k == a[0].key {
        assert [Entry(k, v)] + (a[1..] + b) == [Entry(k, v)] + a[1..] + b;
      } else {
        assert [Entry(k, v)] + (a + b) == [Entry(k, v)] + a + b;
      }
    }
  }

  lemma {:induction false} PutRight(a: seq<Entry>, b: seq<Entry>, k: int, v: Value)
    requires forall i :: 0 <= i < |a| ==> a[i].key < k
    ensures Put(a + b, k, v) == a + Put(b, k, v)
  {
    if a == [] {
      assert a + b == b;
    } else {
      assert (a + b)[1..] == a[1..] + b;
      PutRight(a[1..], b, k, v);
    }
  }

  lemma PutMiddle(a: seq<Entry>, b: seq<Entry>, c: seq<Entry>, k: int, v: Value)
    requires forall i :: 0 <= i < |a| ==> a[i].key < k
    requires forall i :: 0 <= i < |c| ==> k < c[i].key
    ensures Put(a + (b + c), k, v) == a + (Put(b, k, v) + c)
  {
    PutRight(a, b + c, k, v);
    PutLeft(b, c, k, v);
  }

  lemma {:induction false} LookupConcat(a: seq<Entry>, b: seq<Entry>, k: int)
    ensures Lookup(a + b, k) == if Lookup(a, k).Some? then Lookup(a, k) else Lookup(b, k)
  {
    if a == [] {
      assert a + b == b;
    } else {
      assert (a + b)[1..] == a[1..] + b;
      LookupConcat(a[1..], b, k);
    }
  }

  lemma {:induction false} LookupAbsent(es: seq<Entry>, k: int)
    requires forall i :: 0 <= i < |es| ==> es[i].key != k
    ensures Lookup(es, k) == None
  {
    if es != [] { LookupAbsent(es[1..], k); }
  }

  lemma {:induction false} LookupAt(es: seq<Entry>, i: nat)
    requires Sorted(es) && i < |es|
    ensures Lookup(es, es[i].key) == Some(es[i].val)
  {
    if i > 0 { LookupAt(es[1..], i - 1); }
  }

  /** `Put` is map update. */
  lemma {:induction false} LookupPut(es: seq<Entry>, k: int, v: Value, k': int)
    requires Sorted(es)
    ensures Lookup(Put(es, k, v), k') == if k' == k then Some(v) else Lookup(es, k')
  {
    if es != [] {
      if k == es[0].key {
      } else if k < es[0].key {
        assert ([Entry(k, v)] + es)[1..] == es;
      } else {
        LookupPut(es[1..], k, v, k');
        assert ([es[0]] + Put(es[1..], k, v))[1..] == Put(es[1..], k, v);
      }
    }
  }

  lemma Associate(a: seq<Entry>, b: seq<Entry>, c: seq<Entry>)
    ensures a + b + c == a + (b + c)
  {
  }
}
