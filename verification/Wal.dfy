/** The write-ahead log of transactions and its index (ledger/common/logger.cc, logger.h). */
module Wal {
  import opened Codec

  const TXN_KIND: Byte := 12
  const SIGNATURE_BYTES := 20

  datatype Entry = Entry(key: Bytes, val: Bytes)

  datatype Txn = Txn(entries: seq<Entry>, signature: Bytes, time: nat, id: nat)

  /** `| key size (4) | key | value size (4) | value |` */
  function EntryBytes(e: Entry): Bytes {
    Le(|e.key|, U32) + e.key + Le(|e.val|, U32) + e.val
  }

  function EntriesBytes(es: seq<Entry>): Bytes {
    if es == [] then [] else EntriesBytes(es[..|es| - 1]) + EntryBytes(es[|es| - 1])
  }

  function Trailer(t: Txn): Bytes { t.signature + Le(t.time, U64) + Le(t.id, U64) }

  function Data(t: Txn): Bytes { Le(|t.entries|, U32) + EntriesBytes(t.entries) + Trailer(t) }

  function Encoded(t: Txn): Bytes { Chunk(TXN_KIND, Data(t)) }

  /** The fields hold their values, and the signature is a hash. */
  ghost predicate Storable(t: Txn) {
    && Fits(|Encoded(t)|, U32) && Fits(|t.entries|, U32) && |t.signature| == SIGNATURE_BYTES
    && Fits(t.time, U64) && Fits(t.id, U64)
    && forall i :: 0 <= i < |t.entries| ==> Fits(|t.entries[i].key|, U32) && Fits(|t.entries[i].val|, U32)
  }

  ghost predicate AllStorable(ts: seq<Txn>) { forall i :: 0 <= i < |ts| ==> Storable(ts[i]) }

  /** `TxnEntry::Encode`: the fields written one after the other. */
  method Encode(time: nat, keys: seq<Bytes>, vals: seq<Bytes>, signature: Bytes, id: nat, ghost t: Txn)
    returns (chunk: Bytes)
    requires |keys| == |vals| == |t.entries| && forall i :: 0 <= i < |keys| ==> t.entries[i] == Entry(keys[i], vals[i])
    requires t.signature == signature && t.time == time && t.id == id
    ensures chunk == Encoded(t)
  {
    var data := Le(|keys|, U32);
    ghost var head := data;
    for i := 0 to |keys|
      invariant data == head + EntriesBytes(t.entries[..i])
    {
      assert t.entries[..i + 1][..i] == t.entries[..i] && t.entries[..i + 1][i] == t.entries[i];
      data := data + EntryBytes(Entry(keys[i], vals[i]));
    }
    assert t.entries[..|keys|] == t.entries;
    data := data + (signature + Le(time, U64) + Le(id, U64));
    chunk := Chunk(TXN_KIND, data);
  }

  // ---- Parsing.

  /** `part` is in `b` at `offset`. */
  ghost predicate Holds(b: Bytes, offset: nat, part: Bytes) {
    offset + |part| <= |b| && b[offset..offset + |part|] == part
  }

  lemma HoldsConcat(b: Bytes, offset: nat, x: Bytes, y: Bytes)
    ensures Holds(b, offset, x + y) <==> Holds(b, offset, x) && Holds(b, offset + |x|, y)
  {
    if offset + |x| + |y| <= |b| {
      var p, q := b[offset..offset + |x|], b[offset + |x|..offset + |x| + |y|];
      assert b[offset..offset + |x + y|] == p + q;
      assert (p + q)[..|x|] == p && (p + q)[|x|..] == q && (x + y)[..|x|] == x && (x + y)[|x|..] == y;
    }
  }

  lemma IntHeld(b: Bytes, offset: nat, n: nat, k: nat)
    requires Holds(b, offset, Le(n, k)) && Fits(n, k)
    ensures IntAt(b, offset, k) == n
  {
    FromLeOfLe(n, k);
  }

  lemma EntryHeld(b: Bytes, offset: nat, e: Entry)
    requires Holds(b, offset, EntryBytes(e)) && Fits(|e.key|, U32) && Fits(|e.val|, U32)
    ensures var o := offset + U32 + |e.key|;
            && IntAt(b, offset, U32) == |e.key| && At(b, offset + U32, |e.key|) == e.key
            && IntAt(b, o, U32) == |e.val| && At(b, o + U32, |e.val|) == e.val
            && o + U32 + |e.val| == offset + |EntryBytes(e)|
  {
    var o := offset + U32 + |e.key|;
    var front, back := Le(|e.key|, U32) + e.key, Le(|e.val|, U32) + e.val;
    assert EntryBytes(e) == front + back;
    HoldsConcat(b, offset, front, back);
    FieldHeld(b, offset, e.key);
    FieldHeld(b, o, e.val);
  }

  /** A length and that many bytes. */
  lemma FieldHeld(b: Bytes, offset: nat, field: Bytes)
    requires Holds(b, offset, Le(|field|, U32) + field) && Fits(|field|, U32)
    ensures IntAt(b, offset, U32) == |field| && At(b, offset + U32, |field|) == field
  {
    HoldsConcat(b, offset, Le(|field|, U32), field);
    IntHeld(b, offset, |field|, U32);
  }

  lemma {:induction false} EntriesHeld(b: Bytes, offset: nat, es: seq<Entry>, i: nat)
    requires Holds(b, offset, EntriesBytes(es)) && i < |es|
    ensures Holds(b, offset + |EntriesBytes(es[..i])|, EntryBytes(es[i]))
  {
    var n := |es| - 1;
    HoldsConcat(b, offset, EntriesBytes(es[..n]), EntryBytes(es[n]));
    if i < n {
      EntriesHeld(b, offset, es[..n], i);
      assert es[..n][..i] == es[..i];
    }
  }

  lemma EntriesMore(es: seq<Entry>, i: nat)
    requires i < |es|
    ensures |EntriesBytes(es[..i + 1])| == |EntriesBytes(es[..i])| + |EntryBytes(es[i])|
  {
    assert es[..i + 1][..i] == es[..i] && es[..i + 1][i] == es[i];
  }

  /** The parts of a transaction at `base`. */
  lemma TxnHeld(b: Bytes, base: nat, t: Txn)
    requires Holds(b, base, Encoded(t)) && Storable(t)
    ensures NumBytes(b, base) == |Encoded(t)|
    ensures var o := base + META_LENGTH;
            && IntAt(b, o, U32) == |t.entries|
            && Holds(b, o + U32, EntriesBytes(t.entries))
            && Holds(b, o + U32 + |EntriesBytes(t.entries)|, Trailer(t))
  {
    var o := base + META_LENGTH;
    var header := Le(META_LENGTH + |Data(t)|, U32);
    assert Encoded(t) == header + [TXN_KIND] + Data(t);
    HoldsConcat(b, base, header + [TXN_KIND], Data(t));
    HoldsConcat(b, base, header, [TXN_KIND]);
    IntHeld(b, base, |Encoded(t)|, U32);
    HoldsConcat(b, o, Le(|t.entries|, U32) + EntriesBytes(t.entries), Trailer(t));
    HoldsConcat(b, o, Le(|t.entries|, U32), EntriesBytes(t.entries));
    IntHeld(b, o, |t.entries|, U32);
  }

  lemma TrailerHeld(b: Bytes, o: nat, t: Txn)
    requires Holds(b, o, Trailer(t)) && Storable(t)
    ensures At(b, o, SIGNATURE_BYTES) == t.signature
    ensures IntAt(b, o + SIGNATURE_BYTES, U64) == t.time && IntAt(b, o + SIGNATURE_BYTES + U64, U64) == t.id
  {
    HoldsConcat(b, o, t.signature + Le(t.time, U64), Le(t.id, U64));
    HoldsConcat(b, o, t.signature, Le(t.time, U64));
    IntHeld(b, o + SIGNATURE_BYTES, t.time, U64);
    IntHeld(b, o + SIGNATURE_BYTES + U64, t.id, U64);
  }

  method ParseEntry(b: Bytes, at: nat, ghost e: Entry) returns (r: Entry, offset: nat)
    requires Holds(b, at, EntryBytes(e)) && Fits(|e.key|, U32) && Fits(|e.val|, U32)
    ensures r == e && offset == at + |EntryBytes(e)|
  {
    EntryHeld(b, at, e);
    offset := at;
    var keySize := IntAt(b, offset, U32);
    offset := offset + U32;
    var key := At(b, offset, keySize);
    offset := offset + keySize;
    var valSize := IntAt(b, offset, U32);
    offset := offset + U32;
    var val := At(b, offset, valSize);
    offset := offset + valSize;
    r := Entry(key, val);
  }

  method ParseEntries(b: Bytes, first: nat, n: nat, ghost es: seq<Entry>) returns (entries: seq<Entry>, offset: nat)
    requires Holds(b, first, EntriesBytes(es)) && n == |es|
    requires forall i :: 0 <= i < |es| ==> Fits(|es[i].key|, U32) && Fits(|es[i].val|, U32)
    ensures entries == es && offset == first + |EntriesBytes(es)|
  {
    entries, offset := [], first;
    for i := 0 to n
      invariant entries == es[..i] && offset == first + |EntriesBytes(es[..i])|
    {
      EntriesHeld(b, first, es, i);
      EntriesMore(es, i);
      var entry;
      entry, offset := ParseEntry(b, offset, es[i]);
      entries := entries + [entry];
    }
    assert es[..n] == es;
  }

  /** `TxnEntry::Parse` of the chunk at `base` gives back the transaction encoded there. */
  method Parse(b: Bytes, base: nat, ghost t: Txn) returns (r: Txn)
    requires Holds(b, base, Encoded(t)) && Storable(t)
    ensures r == t
  {
    TxnHeld(b, base, t);
    var numEntries := IntAt(b, base + META_LENGTH, U32);
    var entries, offset := ParseEntries(b, base + META_LENGTH + U32, numEntries, t.entries);
    TrailerHeld(b, offset, t);
    r := Txn(entries, At(b, offset, SIGNATURE_BYTES), IntAt(b, offset + SIGNATURE_BYTES, U64),
             IntAt(b, offset + SIGNATURE_BYTES + U64, U64));
  }

  /** The transactions one after the other. */
  function LogBytes(ts: seq<Txn>): Bytes {
    if ts == [] then [] else LogBytes(ts[..|ts| - 1]) + Encoded(ts[|ts| - 1])
  }

  lemma {:induction false} LogConcat(a: seq<Txn>, b: seq<Txn>)
    ensures LogBytes(a + b) == LogBytes(a) + LogBytes(b)
  {
    if b == [] {
      assert a + b == a;
    } else {
      var n := |b| - 1;
      LogConcat(a, b[..n]);
      assert (a + b)[..|a + b| - 1] == a + b[..n];
      Associate(LogBytes(a), LogBytes(b[..n]), Encoded(b[n]));
    }
  }

  lemma Associate(a: Bytes, b: Bytes, c: Bytes)
    ensures a + b + c == a + (b + c)
  {
  }

  /** `ParseTxnEntries` gives back exactly the transactions that were written. */
  method ParseTxnEntries(data: Bytes, ghost ts: seq<Txn>) returns (result: seq<Txn>)
    requires data == LogBytes(ts) && AllStorable(ts)
    ensures result == ts
  {
    result := [];
    var offset := 0;
    ghost var n := 0;
    NothingRead(ts);
    while offset < |data|
      invariant 0 <= n <= |ts| && result == ts[..n] && Reached(ts, n, offset)
    {
      NextTxn(ts, n, offset);
      ReadOne(ts, n, offset);
      var entry := Parse(data, offset, ts[n]);
      offset := offset + NumBytes(data, offset);
      result := result + [entry];
      n := n + 1;
    }
  }

  /** Reading `n` transactions ends at `offset`, which is the end of the log exactly if these are all. */
  ghost predicate Reached(ts: seq<Txn>, n: nat, offset: nat) {
    && n <= |ts| && offset == |LogBytes(ts[..n])|
    && (offset < |LogBytes(ts)| <==> n < |ts|)
    && (n == |ts| ==> ts[..n] == ts)
  }

  /** What is read next, and how far. */
  lemma NextTxn(ts: seq<Txn>, n: nat, offset: nat)
    requires AllStorable(ts) && Reached(ts, n, offset) && offset < |LogBytes(ts)|
    ensures n < |ts| && Storable(ts[n]) && Holds(LogBytes(ts), offset, Encoded(ts[n]))
    ensures NumBytes(LogBytes(ts), offset) == |Encoded(ts[n])|
  {
    TxnAt(ts, n);
    TxnSize(LogBytes(ts), offset, ts[n]);
  }

  lemma ReadOne(ts: seq<Txn>, n: nat, offset: nat)
    requires Reached(ts, n, offset) && n < |ts|
    ensures Reached(ts, n + 1, offset + |Encoded(ts[n])|) && ts[..n + 1] == ts[..n] + [ts[n]]
  {
    LogMore(ts, n);
  }

  lemma TxnSize(b: Bytes, offset: nat, t: Txn)
    requires Holds(b, offset, Encoded(t)) && Storable(t)
    ensures NumBytes(b, offset) == |Encoded(t)|
  {
    TxnHeld(b, offset, t);
  }

  lemma NothingRead(ts: seq<Txn>)
    ensures Reached(ts, 0, 0)
  {
    assert ts[..0] == [];
    if ts != [] { TxnAt(ts, 0); }
  }

  /** Transaction `n` is in the log where the ones before it end. */
  lemma TxnAt(ts: seq<Txn>, n: nat)
    requires n < |ts|
    ensures Holds(LogBytes(ts), |LogBytes(ts[..n])|, Encoded(ts[n])) && |Encoded(ts[n])| > 0
  {
    assert ts == ts[..n + 1] + ts[n + 1..];
    LogConcat(ts[..n + 1], ts[n + 1..]);
    assert ts[..n + 1][..n] == ts[..n];
    assert LogBytes(ts[..n + 1]) == LogBytes(ts[..n]) + Encoded(ts[n]);
  }

  lemma LogMore(ts: seq<Txn>, n: nat)
    requires n < |ts|
    ensures Reached(ts, n + 1, |LogBytes(ts[..n])| + |Encoded(ts[n])|)
  {
    assert ts[..n + 1][..n] == ts[..n];
    if n + 1 < |ts| { TxnAt(ts, n + 1); } else { assert ts[..n + 1] == ts; }
  }

  // ---- The logger.

  const INDEX_BYTES := 32

  /** One index entry: its number, the block, and the range of the log. */
  datatype Range = Range(id: nat, block: nat, start: nat, end: nat)

  function RangeBytes(r: Range): Bytes { Le(r.id, U64) + Le(r.block, U64) + Le(r.start, U64) + Le(r.end, U64) }

  ghost predicate RangeFits(r: Range) { Fits(r.id, U64) && Fits(r.block, U64) && Fits(r.start, U64)
                            && Fits(r.end, U64) }

  function IndexBytes(rs: seq<Range>): (b: Bytes)
    ensures |b| == INDEX_BYTES * |rs|
  {
    if rs == [] then [] else IndexBytes(rs[..|rs| - 1]) + RangeBytes(rs[|rs| - 1])
  }

  lemma {:induction false} RangeAt(rs: seq<Range>, i: nat)
    requires i < |rs|
    ensures Holds(IndexBytes(rs), INDEX_BYTES * i, RangeBytes(rs[i]))
  {
    var n := |rs| - 1;
    var b := IndexBytes(rs);
    assert Holds(b, 0, IndexBytes(rs[..n]) + RangeBytes(rs[n]));
    HoldsConcat(b, 0, IndexBytes(rs[..n]), RangeBytes(rs[n]));
    if i < n {
      RangeAt(rs[..n], i);
      var o := INDEX_BYTES * i;
      assert b[o..o + INDEX_BYTES] == IndexBytes(rs[..n])[o..o + INDEX_BYTES];
    }
  }

  lemma RangeHeld(b: Bytes, o: nat, r: Range)
    requires Holds(b, o, RangeBytes(r)) && RangeFits(r)
    ensures IntAt(b, o + U64, U64) == r.block && IntAt(b, o + 2 * U64, U64) == r.start
              && IntAt(b, o + 3 * U64, U64) == r.end
  {
    HoldsConcat(b, o, Le(r.id, U64) + Le(r.block, U64) + Le(r.start, U64), Le(r.end, U64));
    HoldsConcat(b, o, Le(r.id, U64) + Le(r.block, U64), Le(r.start, U64));
    HoldsConcat(b, o, Le(r.id, U64), Le(r.block, U64));
    IntHeld(b, o + U64, r.block, U64);
    IntHeld(b, o + 2 * U64, r.start, U64);
    IntHeld(b, o + 3 * U64, r.end, U64);
  }

  /** Where transaction `n` starts in the log. */
  ghost function Position(ts: seq<Txn>, n: nat): nat
    requires n <= |ts|
  {
    |LogBytes(ts[..n])|
  }

  /** The range between the marks `m` and `n` holds exactly the transactions from `m` up to `n`. */
  lemma RangeHolds(ts: seq<Txn>, m: nat, n: nat)
    requires m <= n <= |ts|
    ensures Position(ts, m) <= Position(ts, n) <= |LogBytes(ts)|
    ensures LogBytes(ts)[Position(ts, m)..Position(ts, n)] == LogBytes(ts[m..n])
  {
    assert ts == ts[..n] + ts[n..] && ts[..n] == ts[..m] + ts[m..n];
    LogConcat(ts[..n], ts[n..]);
    LogConcat(ts[..m], ts[m..n]);
  }

  /** Range `i` runs from one mark to the next, at the start of transactions. */
  ghost predicate IsRange(ts: seq<Txn>, marks: seq<nat>, ranges: seq<Range>, i: nat) {
    && i < |ranges| && i + 1 < |marks| && marks[i] <= marks[i + 1] <= |ts|
    && RangeFits(ranges[i]) && ranges[i].start == Position(ts, marks[i]) && ranges[i].end == Position(ts, marks[i + 1])
  }

  /** The ranges follow one another, each from where the one before ends. */
  ghost predicate Tiles(ts: seq<Txn>, marks: seq<nat>, ranges: seq<Range>) {
    && |marks| == |ranges| + 1 && marks[0] == 0 && marks[|ranges|] <= |ts|
    && forall i :: 0 <= i < |ranges| ==> IsRange(ts, marks, ranges, i)
  }

  /** More transactions behind the log do not move the earlier ones. */
  lemma TilesMore(ts: seq<Txn>, t: Txn, marks: seq<nat>, ranges: seq<Range>)
    requires Tiles(ts, marks, ranges)
    ensures Tiles(ts + [t], marks, ranges)
  {
    forall i | 0 <= i < |ranges| ensures IsRange(ts + [t], marks, ranges, i) {
      assert IsRange(ts, marks, ranges, i);
      assert (ts + [t])[..marks[i]] == ts[..marks[i]] && (ts + [t])[..marks[i + 1]] == ts[..marks[i + 1]];
    }
  }

  /** The run so far: the transactions logged, how many of them `Advance` has counted, how many had been at each
      call of `Index`, and the index entries. */
  datatype History = History(logged: seq<Txn>, counted: nat, marks: seq<nat>, ranges: seq<Range>)

  ghost predicate Tiled(h: History) {
    Tiles(h.logged, h.marks, h.ranges) && h.marks[|h.ranges|] <= h.counted <= |h.logged|
  }

  ghost predicate Consistent(h: History, start: nat, end: nat) {
    && AllStorable(h.logged) && Tiled(h)
    && start == Position(h.logged, h.marks[|h.ranges|]) && end == Position(h.logged, h.counted)
  }

  /** The two files and the three counters are those of the run. */
  ghost predicate Represents(h: History, wal: Bytes, idx: Bytes, start: nat, end: nat, next: nat) {
    wal == LogBytes(h.logged) && idx == IndexBytes(h.ranges) && next == |h.ranges| && Consistent(h, start, end)
  }

  lemma LoggedMore(h: History, t: Txn, start: nat, end: nat)
    requires Consistent(h, start, end) && Storable(t)
    ensures Consistent(h.(logged := h.logged + [t]), start, end)
    ensures LogBytes(h.logged + [t]) == LogBytes(h.logged) + Encoded(t)
  {
    TilesMore(h.logged, t, h.marks, h.ranges);
    assert (h.logged + [t])[..|h.logged|] == h.logged;
    assert (h.logged + [t])[..h.counted] == h.logged[..h.counted];
    assert (h.logged + [t])[..h.marks[|h.ranges|]] == h.logged[..h.marks[|h.ranges|]];
  }

  lemma CountedMore(h: History, wal: Bytes, idx: Bytes, start: nat, end: nat, next: nat)
    requires Represents(h, wal, idx, start, end, next) && h.counted < |h.logged|
    ensures Represents(h.(counted := h.counted + 1), wal, idx, start, end + |Encoded(h.logged[h.counted])|, next)
  {
    PositionMore(h.logged, h.counted);
  }

  lemma PositionMore(ts: seq<Txn>, n: nat)
    requires n < |ts|
    ensures Position(ts, n + 1) == Position(ts, n) + |Encoded(ts[n])|
  {
    assert ts[..n + 1][..n] == ts[..n] && ts[..n + 1][n] == ts[n];
  }

  ghost function Indexed(h: History, r: Range): History {
    h.(marks := h.marks + [h.counted], ranges := h.ranges + [r])
  }

  lemma IndexedMore(h: History, r: Range)
    requires Consistent(h, r.start, r.end) && Fits(r.id, U64) && Fits(r.block, U64) && Fits(r.end, U64)
    ensures Consistent(Indexed(h, r), r.end, r.end)
              && IndexBytes(Indexed(h, r).ranges) == IndexBytes(h.ranges) + RangeBytes(r)
  {
    RangeHolds(h.logged, h.marks[|h.ranges|], h.counted);
    assert RangeFits(r);
    assert (h.ranges + [r])[..|h.ranges|] == h.ranges;
    TilesOneMore(h, r);
  }

  lemma TilesOneMore(h: History, r: Range)
    requires Tiled(h) && RangeFits(r)
    requires r.start == Position(h.logged, h.marks[|h.ranges|]) && r.end == Position(h.logged, h.counted)
    ensures Tiled(Indexed(h, r))
  {
    var marks, ranges := h.marks + [h.counted], h.ranges + [r];
    forall i | 0 <= i < |ranges| ensures IsRange(h.logged, marks, ranges, i) {
      if i < |h.ranges| { assert IsRange(h.logged, h.marks, h.ranges, i); }
    }
  }

  class Logger {
    var wal: Bytes
    var idx: Bytes
    var start: nat
    var end: nat
    var next: nat
    ghost var h: History

    ghost predicate Valid() reads this {
      Represents(h, wal, idx, start, end, next)
    }

    constructor ()
      ensures Valid() && h == History([], 0, [0], [])
    {
      wal, idx, start, end, next := [], [], 0, 0, 0;
      h := History([], 0, [0], []);
    }

    method Log(data: Bytes, ghost t: Txn)
      requires Valid() && data == Encoded(t) && Storable(t)
      modifies this
      ensures Valid() && h == old(h).(logged := old(h.logged) + [t])
    {
      assert Represents(h.(logged := h.logged + [t]), wal + data, idx, start, end, next) by {
        LoggedMore(h, t, start, end);
      }
      wal := wal + data;
      h := h.(logged := h.logged + [t]);
    }

    /** Counts the next transaction of the log by its size. */
    method Advance(size: nat)
      requires Valid() && h.counted < |h.logged| && size == |Encoded(h.logged[h.counted])|
      modifies this
      ensures Valid() && h == old(h).(counted := old(h.counted) + 1)
    {
      CountedMore(h, wal, idx, start, end, next);
      end := end + size;
      h := h.(counted := h.counted + 1);
    }

    method Index(block: nat)
      requires Valid() && Fits(block, U64) && Fits(end, U64) && Fits(next, U64)
      modifies this
      ensures Valid() && h == Indexed(old(h), Range(old(next), block, old(start), old(end)))
    {
      var r := Range(next, block, start, end);
      assert Represents(Indexed(h, r), wal, idx + RangeBytes(r), end, end, next + 1) by { IndexedMore(h, r); }
      start := end;
      next := next + 1;
      idx := idx + RangeBytes(r);
      h := Indexed(h, r);
    }

    /** The bytes of one index entry are the transactions counted between two calls of `Index`. */
    method Read(i: nat) returns (data: Bytes, block: nat)
      requires Valid() && i < |h.ranges|
      ensures IsRange(h.logged, h.marks, h.ranges, i)
      ensures data == LogBytes(h.logged[h.marks[i]..h.marks[i + 1]]) && block == h.ranges[i].block
    {
      RangeAt(h.ranges, i);
      assert IsRange(h.logged, h.marks, h.ranges, i);
      var o := i * INDEX_BYTES;
      RangeHeld(idx, o, h.ranges[i]);
      block := IntAt(idx, o + U64, U64);
      var from := IntAt(idx, o + 2 * U64, U64);
      var last := IntAt(idx, o + 3 * U64, U64);
      RangeHolds(h.logged, h.marks[i], h.marks[i + 1]);
      data := wal[from..last];
    }

    /** Reading an index entry and parsing it gives exactly the transactions logged for it. */
    method ReadTxns(i: nat) returns (txns: seq<Txn>, block: nat)
      requires Valid() && i < |h.ranges|
      ensures IsRange(h.logged, h.marks, h.ranges, i)
      ensures txns == h.logged[h.marks[i]..h.marks[i + 1]] && block == h.ranges[i].block
    {
      var data;
      data, block := Read(i);
      txns := ParseTxnEntries(data, h.logged[h.marks[i]..h.marks[i + 1]]);
    }
  }

  /** The ranges of the index tile the log: put together they are all transactions up to the last mark. */
  lemma {:induction false} RangesCover(ts: seq<Txn>, marks: seq<nat>, ranges: seq<Range>, n: nat)
    requires Tiles(ts, marks, ranges) && n <= |ranges|
    ensures marks[n] <= |ts| && Joined(ts, marks, ranges, n) == ts[..marks[n]]
  {
    if n > 0 {
      RangesCover(ts, marks, ranges, n - 1);
      assert IsRange(ts, marks, ranges, n - 1);
      CutTwice(ts, marks[n - 1], marks[n]);
    }
  }

  lemma CutTwice(ts: seq<Txn>, m: nat, n: nat)
    requires m <= n <= |ts|
    ensures ts[..n] == ts[..m] + ts[m..n]
  {
  }

  ghost function Joined(ts: seq<Txn>, marks: seq<nat>, ranges: seq<Range>, n: nat): seq<Txn>
    requires Tiles(ts, marks, ranges) && n <= |ranges|
  {
    if n == 0 then []
    else assert IsRange(ts, marks, ranges, n - 1); Joined(ts, marks, ranges, n - 1) + ts[marks[n - 1]..marks[n]]
  }
}
