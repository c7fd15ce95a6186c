/** Little-endian integers and length-prefixed chunks, as the stores write them (ledger/common/chunk.h). */
module Codec {
  type Byte = b: int | 0 <= b < 256
  type Bytes = seq<Byte>

  /** 256 to the power `k`: the number of values of `k` bytes. */
  function Span(k: nat): nat
    ensures Span(k) > 0
  {
    if k == 0 then 1 else 256 * Span(k - 1)
  }

  /** The low `k` bytes of `n`, lowest first. */
  function Le(n: nat, k: nat): (b: Bytes)
    ensures |b| == k
  {
    if k == 0 then [] else [n % 256] + Le(n / 256, k - 1)
  }

  function FromLe(b: Bytes): nat {
    if b == [] then 0 else b[0] + 256 * FromLe(b[1..])
  }

  lemma {:induction false} FromLeOfLe(n: nat, k: nat)
    requires n < Span(k)
    ensures FromLe(Le(n, k)) == n
  {
    if k > 0 {
      FromLeOfLe(n / 256, k - 1);
      assert Le(n, k)[1..] == Le(n / 256, k - 1);
    }
  }

  const U32 := 4
  const U64 := 8

  predicate Fits(n: nat, k: nat) { n < Span(k) }

  /** Reading `n` bytes at `offset`; nothing is said about reads past the end. */
  function At(b: Bytes, offset: nat, n: nat): Bytes {
    if offset + n <= |b| then b[offset..offset + n] else []
  }

  function IntAt(b: Bytes, offset: nat, k: nat): nat { FromLe(At(b, offset, k)) }

  /** The first `n` fields, written one after the other. */
  function Written(fields: seq<Bytes>, n: nat): Bytes
    requires n <= |fields|
  {
    if n == 0 then [] else Written(fields, n - 1) + fields[n - 1]
  }

  /** Field `i` is read back at the offset where it was written. */
  lemma {:induction false} ReadBack(fields: seq<Bytes>, n: nat, i: nat)
    requires i < n <= |fields|
    ensures |Written(fields, i)| + |fields[i]| <= |Written(fields, n)|
    ensures At(Written(fields, n), |Written(fields, i)|, |fields[i]|) == fields[i]
  {
    if i < n - 1 { ReadBack(fields, n - 1, i); }
  }

  lemma ReadBackInt(fields: seq<Bytes>, n: nat, i: nat, value: nat)
    requires i < n <= |fields| && fields[i] == Le(value, |fields[i]|) && Fits(value, |fields[i]|)
    ensures IntAt(Written(fields, n), |Written(fields, i)|, |fields[i]|) == value
  {
    ReadBack(fields, n, i);
    FromLeOfLe(value, |fields[i]|);
  }

  const META_LENGTH := 5

  /** `| num_bytes (4) | type (1) | data |` */
  function Chunk(kind: Byte, data: Bytes): Bytes {
    Le(META_LENGTH + |data|, U32) + [kind] + data
  }

  lemma ChunkInjective(kind: Byte, a: Bytes, b: Bytes)
    requires Chunk(kind, a) == Chunk(kind, b)
    ensures a == b
  {
    assert a == Chunk(kind, a)[META_LENGTH..] && b == Chunk(kind, b)[META_LENGTH..];
  }

  function NumBytes(chunk: Bytes, offset: nat): nat { IntAt(chunk, offset, U32) }
}

/** QLDB documents (ledger/qldb/qlnode.cc). */
module Documents {
  import opened Codec

  const DOCUMENT_KIND: Byte := 8

  datatype Document = Document(ledger: Bytes, seqNo: nat, key: Bytes, val: Bytes, docSeq: nat, version: nat, time: nat)

  /** The field sizes for which the 32- and 64-bit fields hold their values. */
  predicate Storable(d: Document) {
    && Fits(|d.ledger|, U32) && Fits(d.seqNo, U64) && Fits(|d.key| + |d.val| + 2 * U32, U32)
    && Fits(d.docSeq, U32) && Fits(d.version, U32) && Fits(d.time, U64)
  }

  function Fields(d: Document): seq<Bytes> {
    [Le(|d.ledger|, U32), d.ledger, Le(d.seqNo, U64), Le(|d.key| + |d.val| + 2 * U32, U32), Le(|d.key|, U32),
     d.key, d.val, Le(d.docSeq, U32), Le(d.version, U32), Le(d.time, U64)]
  }

  function Encode(d: Document): Bytes { Written(Fields(d), 10) }

  /** `Document::PrecomputeOffset`: each field is read where the one before it ends. */
  function Parse(b: Bytes): Document {
    var ledgerBytes := IntAt(b, 0, U32);
    var o1 := U32 + ledgerBytes;
    var entryBytes, keyBytes := IntAt(b, o1 + U64, U32), IntAt(b, o1 + U64 + U32, U32);
    var o2 := o1 + U64 + U32 + U32;
    var valBytes := if entryBytes >= keyBytes + 2 * U32 then entryBytes - keyBytes - 2 * U32 else 0;
    var o3 := o2 + keyBytes + valBytes;
    Document(At(b, U32, ledgerBytes), IntAt(b, o1, U64), At(b, o2, keyBytes), At(b, o2 + keyBytes, valBytes),
             IntAt(b, o3, U32), IntAt(b, o3 + U32, U32), IntAt(b, o3 + 2 * U32, U64))
  }

  /** `Document::Encode`: the fields are written one after the other. */
  method WriteDocument(d: Document) returns (data: Bytes)
    ensures data == Encode(d)
  {
    var address := [Le(|d.ledger|, U32), d.ledger, Le(d.seqNo, U64)];
    var entry := [Le(|d.key| + |d.val| + 2 * U32, U32), Le(|d.key|, U32), d.key, d.val];
    var fields := address + entry + [Le(d.docSeq, U32), Le(d.version, U32), Le(d.time, U64)];
    assert fields == Fields(d);
    data := [];
    for i := 0 to 10
      invariant data == Written(fields, i)
    {
      data := data + fields[i];
    }
  }

  /** A stored document parses back to itself, so re-encoding it for a proof gives the stored bytes. */
  lemma RoundTrip(d: Document)
    requires Storable(d)
    ensures Parse(Encode(d)) == d
  {
    ReadHeader(d);
    ReadSizes(d);
    ReadEntry(d);
    ReadMeta(d);
    ParsedFields(Encode(d), d);
  }

  /** Parsing puts together what is read at the fields' places. */
  lemma ParsedFields(b: Bytes, d: Document)
    requires var o1 := U32 + |d.ledger|;
             && IntAt(b, 0, U32) == |d.ledger| && At(b, U32, |d.ledger|) == d.ledger && IntAt(b, o1, U64) == d.seqNo
             && IntAt(b, o1 + U64, U32) == |d.key| + |d.val| + 2 * U32 && IntAt(b, o1 + U64 + U32, U32) == |d.key|
    requires var o2 := U32 + |d.ledger| + U64 + U32 + U32;
             At(b, o2, |d.key|) == d.key && At(b, o2 + |d.key|, |d.val|) == d.val
    requires var o3 := U32 + |d.ledger| + U64 + U32 + U32 + |d.key| + |d.val|;
             && IntAt(b, o3, U32) == d.docSeq && IntAt(b, o3 + U32, U32) == d.version
             && IntAt(b, o3 + 2 * U32, U64) == d.time
    ensures Parse(b) == d
  {
  }

  /** Distinct documents have distinct chunks. */
  lemma EncodingDetermines(d: Document, e: Document)
    requires Storable(d) && Storable(e) && Chunk(DOCUMENT_KIND, Encode(d)) == Chunk(DOCUMENT_KIND, Encode(e))
    ensures d == e
  {
    ChunkInjective(DOCUMENT_KIND, Encode(d), Encode(e));
    RoundTrip(d);
    RoundTrip(e);
  }

  lemma ReadHeader(d: Document)
    requires Storable(d)
    ensures var b, o1 := Encode(d), U32 + |d.ledger|;
            IntAt(b, 0, U32) == |d.ledger| && At(b, U32, |d.ledger|) == d.ledger && IntAt(b, o1, U64) == d.seqNo
  {
    Offsets(d);
    ReadBackInt(Fields(d), 10, 0, |d.ledger|);
    ReadBack(Fields(d), 10, 1);
    ReadBackInt(Fields(d), 10, 2, d.seqNo);
  }

  lemma ReadSizes(d: Document)
    requires Storable(d)
    ensures var b, o1 := Encode(d), U32 + |d.ledger|;
            IntAt(b, o1 + U64, U32) == |d.key| + |d.val| + 2 * U32 && IntAt(b, o1 + U64 + U32, U32) == |d.key|
  {
    Offsets(d);
    ReadBackInt(Fields(d), 10, 3, |d.key| + |d.val| + 2 * U32);
    ReadBackInt(Fields(d), 10, 4, |d.key|);
  }

  lemma ReadEntry(d: Document)
    ensures var b, o2 := Encode(d), U32 + |d.ledger| + U64 + U32 + U32;
            At(b, o2, |d.key|) == d.key && At(b, o2 + |d.key|, |d.val|) == d.val
  {
    Offsets(d);
    ReadBack(Fields(d), 10, 5);
    ReadBack(Fields(d), 10, 6);
  }

  lemma ReadMeta(d: Document)
    requires Storable(d)
    ensures var b, o3 := Encode(d), U32 + |d.ledger| + U64 + U32 + U32 + |d.key| + |d.val|;
            && IntAt(b, o3, U32) == d.docSeq && IntAt(b, o3 + U32, U32) == d.version
            && IntAt(b, o3 + 2 * U32, U64) == d.time
  {
    var f := Fields(d);
    Offsets(d);
    ReadBackInt(f, 10, 7, d.docSeq);
    ReadBackInt(f, 10, 8, d.version);
    ReadBackInt(f, 10, 9, d.time);
  }

  lemma Offsets(d: Document)
    ensures var f, o1 := Fields(d), U32 + |d.ledger|;
            && |Written(f, 0)| == 0 && |Written(f, 1)| == U32 && |Written(f, 2)| == o1
            && |Written(f, 3)| == o1 + U64 && |Written(f, 4)| == o1 + U64 + U32
    ensures var f, o2 := Fields(d), U32 + |d.ledger| + U64 + U32 + U32;
            && |Written(f, 5)| == o2 && |Written(f, 6)| == o2 + |d.key| && |Written(f, 7)| == o2 + |d.key| + |d.val|
            && |Written(f, 8)| == o2 + |d.key| + |d.val| + U32 && |Written(f, 9)| == o2 + |d.key| + |d.val| + 2 * U32
  {
    var f := Fields(d);
    assert |Written(f, 1)| == U32;
    assert |Written(f, 3)| == U32 + |d.ledger| + U64;
    assert |Written(f, 5)| == U32 + |d.ledger| + U64 + U32 + U32;
    assert |Written(f, 7)| == U32 + |d.ledger| + U64 + U32 + U32 + |d.key| + |d.val|;
  }
}
