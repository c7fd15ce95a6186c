/** Keys of the Merkle Patricia trie (ledger/ledgerdb/mpt/mpt_config.h): nibbles followed by the terminator 16. */
module Nibbles {
  import opened Codec

  type Nibble = n: int | 0 <= n <= 16
  type Path = seq<Nibble>

  const END: Nibble := 16

  /** A whole key, or what is left of one below the root: only its last nibble is the terminator. */
  predicate IsKey(k: Path) {
    k != [] && k[|k| - 1] == END && forall i :: 0 <= i < |k| - 1 ==> k[i] < END
  }

  /** Bytes above 127 are negative as `int8_t`, and have no nibbles. */
  predicate Ascii(key: Bytes) { forall i :: 0 <= i < |key| ==> key[i] < 128 }

  function Hex(key: Bytes): (h: Path)
    requires Ascii(key)
    ensures IsKey(h) && |h| == 2 * |key| + 1
  {
    if key == [] then [END] else [High(key[0]), Low(key[0])] + Hex(key[1..])
  }

  function High(b: Byte): Nibble
    requires b < 128
  {
    b / 16
  }

  function Low(b: Byte): Nibble { b % 16 }

  lemma NibblesDetermine(a: Byte, b: Byte)
    requires a < 128 && b < 128 && High(a) == High(b) && Low(a) == Low(b)
    ensures a == b
  {
  }

  /** Distinct keys have distinct paths. */
  lemma {:induction false} HexInjective(a: Bytes, b: Bytes)
    requires Ascii(a) && Ascii(b) && Hex(a) == Hex(b)
    ensures a == b
  {
    if a != [] && b != [] {
      assert Hex(a)[2..] == Hex(a[1..]) && Hex(b)[2..] == Hex(b[1..]);
      HexInjective(a[1..], b[1..]);
      assert High(a[0]) == Hex(a)[0] && Low(a[0]) == Hex(a)[1] && High(b[0]) == Hex(b)[0] && Low(b[0]) == Hex(b)[1];
      NibblesDetermine(a[0], b[0]);
    }
  }

  method KeybytesToHex(key: Bytes) returns (nibbles: array<Nibble>)
    requires Ascii(key)
    ensures fresh(nibbles) && nibbles[..] == Hex(key) && nibbles.Length == 2 * |key| + 1 && nibbles[2 * |key|] == 16
    ensures forall i :: 0 <= i < |key| ==> nibbles[2 * i] == key[i] / 16 && nibbles[2 * i + 1] == key[i] % 16
  {
    var l := |key| * 2 + 1;
    nibbles := new Nibble[l](_ => 0);
    for i := 0 to |key|
      invariant forall j :: 0 <= j < 2 * i ==> nibbles[j] == Hex(key)[j]
      invariant forall j :: 0 <= j < i ==> nibbles[2 * j] == key[j] / 16 && nibbles[2 * j + 1] == key[j] % 16
    {
      HexAt(key, i);
      nibbles[i * 2] := High(key[i]);
      nibbles[i * 2 + 1] := Low(key[i]);
    }
    nibbles[l - 1] := END;
  }

  lemma {:induction false} HexAt(key: Bytes, i: nat)
    requires Ascii(key) && i < |key|
    ensures Hex(key)[2 * i] == High(key[i]) && Hex(key)[2 * i + 1] == Low(key[i])
  {
    if i > 0 { HexAt(key[1..], i - 1); }
  }

  /** The length of the common prefix. */
  ghost predicate IsPrefixLen(a: seq<int>, b: seq<int>, n: nat) {
    n <= |a| && n <= |b| && (forall i :: 0 <= i < n ==> a[i] == b[i]) && (n < |a| && n < |b| ==> a[n] != b[n])
  }

  function PrefixLen(a: seq<int>, b: seq<int>): (n: nat)
    ensures IsPrefixLen(a, b, n)
  {
    if a == [] || b == [] || a[0] != b[0] then 0
    else
      1 + PrefixLen(a[1..], b[1..])
  }

  method ComputePrefixLen(a: seq<int>, b: seq<int>) returns (i: nat)
    ensures i == PrefixLen(a, b)
  {
    i := 0;
    while i < |a| && i < |b| && a[i] == b[i]
      invariant i <= |a| && i <= |b| && forall j :: 0 <= j < i ==> a[j] == b[j]
    {
      i := i + 1;
    }
    OnePrefixLen(a, b, i, PrefixLen(a, b));
  }

  lemma OnePrefixLen(a: seq<int>, b: seq<int>, m: nat, n: nat)
    requires IsPrefixLen(a, b, m) && IsPrefixLen(a, b, n)
    ensures m == n
  {
  }
}

/** The trie as a tree, apart from how it is stored. */
module TrieTree {
  import opened Codec
  import opened Options
  import opened Nibbles

  datatype Tree = Nil | Value(val: Bytes) | Short(key: Path, child: Tree) | Full(kids: seq<Tree>)

  const WIDTH := 17

  /** The canonical form of a subtree that holds something: a short node leads to a value exactly if its key is
      terminated, and to a full node otherwise; a full node has at least two children. */
  ghost predicate Proper(t: Tree) {
    match t
    case Nil => false
    case Value(_) => false
    case Short(k, c) =>
      && k != [] && (forall i :: 0 <= i < |k| - 1 ==> k[i] < END)
      && (if k[|k| - 1] == END then c.Value? else c.Full? && Proper(c))
    case Full(kids) =>
      && |kids| == WIDTH && (forall i :: 0 <= i < 16 ==> kids[i].Nil? || Proper(kids[i]))
      && (kids[16].Nil? || kids[16].Value?)
      && exists i, j :: 0 <= i < j < WIDTH && !kids[i].Nil? && !kids[j].Nil?
  }

  /** The rest of a key at a subtree: nothing is left exactly below a terminator. */
  ghost predicate Enters(t: Tree, key: Path) {
    key == [] || (IsKey(key) && (t.Nil? || Proper(t)))
  }

  ghost predicate Place(t: Tree, end: bool) {
    if end then t.Nil? || t.Value? else t.Nil? || Proper(t)
  }

  ghost predicate KeyFor(k: Path, end: bool) { if end then k == [] else IsKey(k) }

  ghost function Lookup(t: Tree, key: Path): Option<Bytes> {
    match t
    case Nil => None
    case Value(v) => Some(v)
    case Short(k, c) => if |key| < |k| || key[..|k|] != k then None else Lookup(c, key[|k|..])
    case Full(kids) => if key == [] || |kids| != WIDTH then None else Lookup(kids[key[0]], key[1..])
  }

  ghost function Attach(key: Path, t: Tree): Tree { if key == [] then t else Short(key, t) }

  const EMPTY: seq<Tree> := [Nil, Nil, Nil, Nil, Nil, Nil, Nil, Nil, Nil, Nil, Nil, Nil, Nil, Nil, Nil, Nil, Nil]

  /** The full node where two keys part. */
  ghost function Branch(a: Path, t: Tree, b: Path, u: Tree): Tree
    requires a != [] && b != []
  {
    Full(EMPTY[a[0] := Attach(a[1..], t)][b[0] := Attach(b[1..], u)])
  }

  ghost function Insert(t: Tree, key: Path, v: Bytes): Tree
    requires Enters(t, key)
    decreases t
  {
    if key == [] then Value(v)
    else
      match t
      case Nil => Short(key, Value(v))
      case Short(k, c) =>
        var m := PrefixLen(key, k);
        if m == |k| then EntersBelow(t, key); Short(k, Insert(c, key[m..], v))
        else
          KeysPart(k, key, m);
          Attach(key[..m], Branch(k[m..], c, key[m..], Value(v)))
      case Full(kids) => Full(kids[key[0] := Insert(kids[key[0]], key[1..], v)])
  }

  lemma EntersBelow(t: Tree, key: Path)
    requires t.Short? && Enters(t, key) && key != [] && PrefixLen(key, t.key) == |t.key|
    ensures Enters(t.child, key[|t.key|..]) && key[..|t.key|] == t.key
    ensures t.key[|t.key| - 1] == END <==> |t.key| == |key|
  {
    var k := t.key;
    assert key[..|k|] == k;
    assert key[|k| - 1] == k[|k| - 1];
    if |k| < |key| { SuffixIsKey(key, |k|); }
  }

  lemma SuffixIsKey(key: Path, n: nat)
    requires IsKey(key) && n < |key|
    ensures IsKey(key[n..])
  {
  }

  lemma KeysPart(k: Path, key: Path, m: nat)
    requires IsKey(key) && k != [] && (forall i :: 0 <= i < |k| - 1 ==> k[i] < END) && IsPrefixLen(key, k, m) && m < |k|
    ensures m < |key| && key[m] != k[m] && IsKey(key[m..])
  {
    assert m > 0 ==> key[m - 1] == k[m - 1];
  }

  /** Inserting keeps the canonical form. */
  lemma {:induction false} InsertProper(t: Tree, key: Path, v: Bytes)
    requires Enters(t, key) && key != []
    ensures Proper(Insert(t, key, v)) && (t.Full? ==> Insert(t, key, v).Full?)
    decreases t
  {
    match t
    case Nil =>
    case Short(k, c) =>
      var m := PrefixLen(key, k);
      if m == |k| {
        EntersBelow(t, key);
        if |k| < |key| { InsertProper(c, key[m..], v); }
      } else {
        ForkProper(t, key, m, v);
      }
    case Full(kids) =>
      var i := key[0];
      FullEnters(t, key);
      if i != END { InsertProper(kids[i], key[1..], v); }
      FullProper(kids, i, Insert(kids[i], key[1..], v));
  }

  lemma FullEnters(t: Tree, key: Path)
    requires t.Full? && Proper(t) && IsKey(key)
    ensures Enters(t.kids[key[0]], key[1..]) && (key[0] == END <==> key[1..] == [])
    ensures key[0] != END ==> IsKey(key[1..]) && (t.kids[key[0]].Nil? || Proper(t.kids[key[0]]))
  {
    if |key| > 1 { SuffixIsKey(key, 1); }
  }

  lemma ForkProper(t: Tree, key: Path, m: nat, v: Bytes)
    requires t.Short? && Proper(t) && IsKey(key) && m == PrefixLen(key, t.key) && m < |t.key|
    ensures Proper(Insert(t, key, v))
  {
    KeysPart(t.key, key, m);
    assert Proper(Short(t.key[m..], t.child));
    BranchProper(t.key[m..], t.child, key[m..], v);
    AttachProper(key, m, Branch(t.key[m..], t.child, key[m..], Value(v)));
  }

  lemma AttachProper(key: Path, m: nat, branch: Tree)
    requires IsKey(key) && m < |key| && branch.Full? && Proper(branch)
    ensures Proper(Attach(key[..m], branch))
  {
  }

  lemma FullProper(kids: seq<Tree>, i: Nibble, kid: Tree)
    requires Proper(Full(kids)) && (if i == END then kid.Value? else Proper(kid))
    ensures Proper(Full(kids[i := kid]))
  {
    var a, b :| 0 <= a < b < WIDTH && !kids[a].Nil? && !kids[b].Nil?;
    assert !kids[i := kid][a].Nil? && !kids[i := kid][b].Nil?;
  }

  lemma BranchProper(a: Path, c: Tree, b: Path, v: Bytes)
    requires Proper(Short(a, c)) && IsKey(b) && a[0] != b[0]
    ensures Proper(Branch(a, c, b, Value(v)))
  {
    var kids := Branch(a, c, b, Value(v)).kids;
    assert !kids[a[0]].Nil? && !kids[b[0]].Nil?;
    assert a[0] != END ==> Proper(Attach(a[1..], c));
    assert b[0] != END ==> Proper(Attach(b[1..], Value(v)));
    if a[0] < b[0] {
      assert kids[a[0]] != Nil && kids[b[0]] != Nil;
    } else {
      assert kids[b[0]] != Nil && kids[a[0]] != Nil;
    }
  }

  /** Inserting is map update. */
  lemma {:induction false} LookupInsert(t: Tree, key: Path, v: Bytes, k': Path)
    requires Enters(t, key) && (if key == [] then k' == [] else IsKey(k'))
    ensures Lookup(Insert(t, key, v), k') == if k' == key then Some(v) else Lookup(t, k')
    decreases t
  {
    if key != [] {
      match t
      case Nil => assert key[..|key|] == key && k'[..|k'|] == k'; KeyNotPrefix(key, k');
      case Short(k, c) =>
        var m := PrefixLen(key, k);
        if m == |k| {
          EntersBelow(t, key);
          LookupBelow(t, key, v, k');
        } else {
          KeysPart(k, key, m);
          LookupBranch(k, c, key, m, v, k');
        }
      case Full(kids) =>
        FullEnters(t, key);
        FullEnters(t, k');
        if k'[0] == key[0] {
          LookupInsert(kids[key[0]], key[1..], v, k'[1..]);
          SameHead(k', key);
        }
    }
  }

  lemma SameHead(a: Path, b: Path)
    requires a != [] && b != [] && a[0] == b[0]
    ensures a == b <==> a[1..] == b[1..]
  {
    assert a == [a[0]] + a[1..] && b == [b[0]] + b[1..];
  }

  /** No key is a proper prefix of another. */
  lemma KeyNotPrefix(a: Path, b: Path)
    requires IsKey(a) && IsKey(b)
    ensures |a| <= |b| && b[..|a|] == a ==> a == b
  {
    assert |a| <= |b| && b[..|a|] == a ==> b[|a| - 1] == a[|a| - 1];
  }

  lemma {:induction false} LookupBelow(t: Tree, key: Path, v: Bytes, k': Path)
    requires t.Short? && Enters(t, key) && IsKey(key) && IsKey(k') && PrefixLen(key, t.key) == |t.key|
    ensures Lookup(Insert(t, key, v), k') == if k' == key then Some(v) else Lookup(t, k')
    decreases t, 0
  {
    var k, n := t.key, |t.key|;
    EntersBelow(t, key);
    assert key == k + key[n..];
    if n <= |k'| && k'[..n] == k {
      assert k' == k + k'[n..];
      assert k'[n - 1] == k[n - 1];
      LookupInsert(t.child, key[n..], v, k'[n..]);
    }
  }

  predicate StartsWith(k: Path, p: Path) { |p| <= |k| && k[..|p|] == p }

  /** A short node is two in a row. */
  lemma LookupSplit(k: Path, c: Tree, m: nat, s: Path)
    requires m <= |k|
    ensures Lookup(Attach(k, c), s) == if StartsWith(s, k[..m]) then Lookup(Attach(k[m..], c), s[m..]) else None
  {
    var rest := k[m..];
    assert k == k[..m] + rest;
    assert s[0..] == s;
    assert StartsWith(s, k[..m]) && StartsWith(s[m..], rest) ==> s[..|k|] == s[..m] + s[m..][..|rest|];
    if StartsWith(s, k) {
      assert s[..m] == s[..|k|][..m];
      assert s[m..][..|rest|] == s[..|k|][m..];
      assert s[m..][|rest|..] == s[|k|..];
    }
  }

  lemma LookupBranch(k: Path, c: Tree, key: Path, m: nat, v: Bytes, k': Path)
    requires m < |k| && m < |key| && k[..m] == key[..m] && k[m] != key[m] && IsKey(key) && IsKey(k')
    ensures Lookup(Attach(key[..m], Branch(k[m..], c, key[m..], Value(v))), k')
         == if k' == key then Some(v) else Lookup(Short(k, c), k')
  {
    var p, branch := key[..m], Branch(k[m..], c, key[m..], Value(v));
    LookupAttached(p, branch, k');
    LookupSplit(k, c, m, k');
    if StartsWith(k', p) {
      RestOfKey(key, m, k');
      LookupFork(k[m..], c, key[m..], v, k'[m..]);
    }
  }

  lemma LookupAttached(p: Path, t: Tree, s: Path)
    ensures Lookup(Attach(p, t), s) == if StartsWith(s, p) then Lookup(t, s[|p|..]) else None
  {
    assert s[0..] == s;
  }

  lemma RestOfKey(key: Path, m: nat, k': Path)
    requires IsKey(key) && IsKey(k') && m < |key| && StartsWith(k', key[..m])
    ensures IsKey(key[m..]) && IsKey(k'[m..]) && (k' == key <==> k'[m..] == key[m..])
  {
    assert k' == key[..m] + k'[m..] && key == key[..m] + key[m..];
    if |k'| == m { KeyNotPrefix(k', key); }
  }

  lemma LookupFork(a: Path, c: Tree, b: Path, v: Bytes, r: Path)
    requires a != [] && IsKey(b) && IsKey(r) && a[0] != b[0]
    ensures Lookup(Branch(a, c, b, Value(v)), r) == if r == b then Some(v) else Lookup(Short(a, c), r)
  {
    LookupHead(a, c, r);
    if r[0] == b[0] {
      LookupHead(b, Value(v), r);
      LookupLeaf(b, v, r);
    }
  }

  /** A short node is its first nibble, then the rest. */
  lemma LookupHead(a: Path, c: Tree, r: Path)
    requires a != [] && r != []
    ensures Lookup(Short(a, c), r) == if r[0] == a[0] then Lookup(Attach(a[1..], c), r[1..]) else None
  {
    assert r[..1] == [r[0]] && a[..1] == [a[0]];
    LookupSplit(a, c, 1, r);
  }

  lemma LookupLeaf(key: Path, v: Bytes, k': Path)
    requires IsKey(key) && IsKey(k')
    ensures Lookup(Short(key, Value(v)), k') == if k' == key then Some(v) else None
  {
    KeyNotPrefix(key, k');
    assert k'[..|k'|] == k';
  }

  // ---- The element count kept in every node.

  ghost function Count(t: Tree): nat
    decreases t, if t.Full? then |t.kids| + 1 else 0
  {
    match t
    case Nil => 0
    case Value(_) => 1
    case Short(_, c) => Count(c)
    case Full(kids) => CountKids(t, |kids|)
  }

  ghost function CountKids(t: Tree, n: nat): nat
    requires t.Full? && n <= |t.kids|
    decreases t, n
  {
    if n == 0 then 0 else CountKids(t, n - 1) + Count(t.kids[n - 1])
  }

  lemma {:induction false} CountReplaced(t: Tree, i: nat, kid: Tree, n: nat)
    requires t.Full? && i < |t.kids| && n <= |t.kids|
    ensures CountKids(Full(t.kids[i := kid]), n) + (if i < n then Count(t.kids[i]) else 0)
         == CountKids(t, n) + if i < n then Count(kid) else 0
    decreases n
  {
    if n > 0 { CountReplaced(t, i, kid, n - 1); }
  }

  lemma {:induction false} CountNone(n: nat)
    requires n <= WIDTH
    ensures CountKids(Full(EMPTY), n) == 0
  {
    if n > 0 { CountNone(n - 1); }
  }

  lemma CountBranch(a: Path, c: Tree, b: Path, u: Tree)
    requires a != [] && b != [] && a[0] != b[0]
    ensures Count(Branch(a, c, b, u)) == Count(c) + Count(u)
  {
    var one := EMPTY[a[0] := Attach(a[1..], c)];
    CountNone(WIDTH);
    CountReplaced(Full(EMPTY), a[0], Attach(a[1..], c), WIDTH);
    CountReplaced(Full(one), b[0], Attach(b[1..], u), WIDTH);
  }

  /** The count grows by one exactly if the key is new. */
  lemma {:induction false} CountInsert(t: Tree, key: Path, v: Bytes)
    requires Enters(t, key) && (key == [] ==> t.Nil? || t.Value?)
    ensures Count(Insert(t, key, v)) == Count(t) + if Lookup(t, key).Some? then 0 else 1
    decreases t
  {
    if key != [] {
      match t
      case Nil =>
      case Short(k, c) =>
        var m := PrefixLen(key, k);
        if m == |k| {
          EntersBelow(t, key);
          CountInsert(c, key[m..], v);
        } else {
          KeysPart(k, key, m);
          CountBranch(k[m..], c, key[m..], Value(v));
          assert |k| <= |key| ==> key[..|k|][m] == key[m];
        }
      case Full(kids) =>
        CountInsert(kids[key[0]], key[1..], v);
        CountReplaced(t, key[0], Insert(kids[key[0]], key[1..], v), |kids|);
    }
  }

  // ---- A canonical tree is determined by its map.

  ghost predicate SameMap(t: Tree, u: Tree, end: bool) {
    forall k :: KeyFor(k, end) ==> Lookup(t, k) == Lookup(u, k)
  }

  lemma {:induction false} SomeKey(t: Tree) returns (k: Path)
    requires Proper(t)
    ensures IsKey(k) && Lookup(t, k).Some?
    decreases t, 1
  {
    match t
    case Short(p, c) =>
      if p[|p| - 1] == END {
        k := p;
      } else {
        var rest := SomeKey(c);
        k := p + rest;
        assert k[..|p|] == p && k[|p|..] == rest;
      }
    case Full(kids) =>
      var i :| 0 <= i < WIDTH && !kids[i].Nil?;
      k := SomeKeyAt(t, i);
  }

  lemma {:induction false} SomeKeyAt(t: Tree, i: Nibble) returns (k: Path)
    requires Proper(t) && t.Full? && !t.kids[i].Nil?
    ensures IsKey(k) && Lookup(t, k).Some? && k[0] == i
    decreases t, 0
  {
    if i == END {
      k := [END];
    } else {
      var rest := SomeKey(t.kids[i]);
      k := [i] + rest;
      assert k[1..] == rest;
    }
  }

  lemma LookupPrefix(p: Path, c: Tree, s: Path)
    ensures Lookup(Short(p, c), p + s) == Lookup(c, s)
  {
    assert (p + s)[..|p|] == p && (p + s)[|p|..] == s;
  }

  lemma NilIsEmpty(t: Tree)
    requires Proper(t)
    ensures !SameMap(t, Nil, false) && !SameMap(Nil, t, false)
  {
    var k := SomeKey(t);
    assert Lookup(Nil, k) == None;
  }

  /** All keys of a short node start alike; those of a full node do not. */
  lemma FullIsNotShort(t: Tree, u: Tree)
    requires Proper(t) && Proper(u) && t.Full? && u.Short?
    ensures !SameMap(t, u, false) && !SameMap(u, t, false)
  {
    var i, j :| 0 <= i < j < WIDTH && !t.kids[i].Nil? && !t.kids[j].Nil?;
    var k1 := SomeKeyAt(t, i);
    var k2 := SomeKeyAt(t, j);
    assert Lookup(u, k1).Some? ==> k1[..|u.key|][0] == i;
    assert Lookup(u, k2).Some? ==> k2[..|u.key|][0] == j;
    assert Lookup(u, k1) == None || Lookup(u, k2) == None;
  }

  lemma ShortsSameKey(t: Tree, u: Tree)
    requires Proper(t) && Proper(u) && t.Short? && u.Short? && SameMap(t, u, false)
    ensures StartsWith(t.key, u.key)
  {
    var a, b := t.key, u.key;
    var k := SomeKey(t);
    assert Lookup(u, k).Some?;
    assert StartsWith(k, a) && StartsWith(k, b);
    assert forall i :: 0 <= i < |a| ==> k[i] == a[i];
    assert forall i :: 0 <= i < |b| ==> k[i] == b[i];
    if |a| < |b| {
      assert a[|a| - 1] == b[|a| - 1];
      var i, j :| 0 <= i < j < WIDTH && !t.child.kids[i].Nil? && !t.child.kids[j].Nil?;
      var bi := KeyThrough(t, u, i);
      var bj := KeyThrough(t, u, j);
    }
  }

  lemma KeyThrough(t: Tree, u: Tree, i: Nibble) returns (k: Path)
    requires Proper(t) && Proper(u) && t.Short? && u.Short? && SameMap(t, u, false) && |t.key| < |u.key|
    requires t.child.Full? && |t.child.kids| == WIDTH && !t.child.kids[i].Nil?
    ensures u.key[|t.key|] == i
  {
    var rest := SomeKeyAt(t.child, i);
    k := t.key + rest;
    LookupPrefix(t.key, t.child, rest);
    assert IsKey(k);
    assert Lookup(u, k) == Lookup(t, k);
    assert k[..|u.key|][|t.key|] == i;
  }

  lemma ChildrenSameMap(t: Tree, u: Tree)
    requires Proper(t) && Proper(u) && t.Short? && u.Short? && SameMap(t, u, false) && t.key == u.key
    ensures SameMap(t.child, u.child, t.key[|t.key| - 1] == END)
  {
    var p := t.key;
    forall s | KeyFor(s, p[|p| - 1] == END) ensures Lookup(t.child, s) == Lookup(u.child, s) {
      LookupPrefix(p, t.child, s);
      LookupPrefix(p, u.child, s);
      assert IsKey(p + s);
    }
  }

  lemma KidsSameMap(t: Tree, u: Tree, i: Nibble)
    requires Proper(t) && Proper(u) && t.Full? && u.Full? && SameMap(t, u, false)
    ensures SameMap(t.kids[i], u.kids[i], i == END)
  {
    forall s | KeyFor(s, i == END) ensures Lookup(t.kids[i], s) == Lookup(u.kids[i], s) {
      var k := [i] + s;
      assert IsKey(k) && k[1..] == s;
      assert Lookup(t, k) == Lookup(u, k);
    }
  }

  /** Canonical trees that hold the same map are equal. */
  lemma {:induction false} Canonical(t: Tree, u: Tree, end: bool)
    requires Place(t, end) && Place(u, end) && SameMap(t, u, end)
    ensures t == u
    decreases t, u
  {
    if end {
      assert Lookup(t, []) == Lookup(u, []);
    } else if u.Nil? && !t.Nil? {
      NilIsEmpty(t);
    } else if t.Nil? && !u.Nil? {
      NilIsEmpty(u);
    } else if t.Full? && u.Full? {
      forall i | 0 <= i < WIDTH ensures t.kids[i] == u.kids[i] {
        KidsSameMap(t, u, i);
        Canonical(t.kids[i], u.kids[i], i == END);
      }
    } else if t.Short? && u.Short? {
      ShortsSameKey(t, u);
      assert SameMap(u, t, false);
      ShortsSameKey(u, t);
      assert t.key == u.key;
      ChildrenSameMap(t, u);
      Canonical(t.child, u.child, t.key[|t.key| - 1] == END);
    } else if t.Full? && u.Short? {
      FullIsNotShort(t, u);
    } else if t.Short? && u.Full? {
      FullIsNotShort(u, t);
    }
  }

  // ---- Runs of insertions.

  datatype Op = Op(key: Bytes, val: Bytes)

  ghost predicate AllAscii(ops: seq<Op>) { forall i :: 0 <= i < |ops| ==> Ascii(ops[i].key) }

  /** The tree after setting the keys in turn. */
  ghost function Build(t: Tree, ops: seq<Op>): (r: Tree)
    requires Place(t, false) && AllAscii(ops)
    ensures Place(r, false)
    decreases |ops|
  {
    if ops == [] then t
    else
      var n := |ops| - 1; InsertOp(Build(t, ops[..n]), ops[n])
  }

  ghost function InsertOp(t: Tree, op: Op): (r: Tree)
    requires Place(t, false) && Ascii(op.key)
    ensures Place(r, false)
  {
    InsertProper(t, Hex(op.key), op.val);
    Insert(t, Hex(op.key), op.val)
  }

  /** The last value set for a key. */
  ghost function LastSet(ops: seq<Op>, key: Bytes): Option<Bytes> {
    if ops == [] then None
    else if ops[|ops| - 1].key == key then Some(ops[|ops| - 1].val)
    else LastSet(ops[..|ops| - 1], key)
  }

  /** It is the value of the last operation for the key. */
  lemma {:induction false} LastSetIs(ops: seq<Op>, key: Bytes, i: nat)
    requires i < |ops| && ops[i].key == key && forall j :: i < j < |ops| ==> ops[j].key != key
    ensures LastSet(ops, key) == Some(ops[i].val)
  {
    if i < |ops| - 1 { LastSetIs(ops[..|ops| - 1], key, i); }
  }

  lemma {:induction false} NoneSet(ops: seq<Op>, key: Bytes)
    requires forall j :: 0 <= j < |ops| ==> ops[j].key != key
    ensures LastSet(ops, key) == None
  {
    if ops != [] { NoneSet(ops[..|ops| - 1], key); }
  }

  /** Looking up a key gives the last value set for it, or what was there before. */
  lemma {:induction false} LookupBuild(t: Tree, ops: seq<Op>, key: Bytes)
    requires Place(t, false) && AllAscii(ops) && Ascii(key)
    ensures Lookup(Build(t, ops), Hex(key))
         == if LastSet(ops, key).Some? then LastSet(ops, key) else Lookup(t, Hex(key))
    decreases |ops|
  {
    if ops != [] {
      var n := |ops| - 1;
      LookupBuild(t, ops[..n], key);
      LookupInsert(Build(t, ops[..n]), Hex(ops[n].key), ops[n].val, Hex(key));
      if Hex(ops[n].key) == Hex(key) { HexInjective(ops[n].key, key); }
    }
  }

  /** A path that is no key's is never found. */
  lemma {:induction false} LookupStray(ops: seq<Op>, k: Path)
    requires AllAscii(ops) && IsKey(k) && forall i :: 0 <= i < |ops| ==> Hex(ops[i].key) != k
    ensures Lookup(Build(Nil, ops), k) == None
    decreases |ops|
  {
    if ops != [] {
      var n := |ops| - 1;
      LookupStray(ops[..n], k);
      LookupInsert(Build(Nil, ops[..n]), Hex(ops[n].key), ops[n].val, k);
    }
  }

  /** Sequences of keys that end in the same map build the same tree. */
  lemma OpsBuildTheMap(ops: seq<Op>, ops': seq<Op>)
    requires AllAscii(ops) && AllAscii(ops') && forall key :: Ascii(key) ==> LastSet(ops, key) == LastSet(ops', key)
    ensures Build(Nil, ops) == Build(Nil, ops')
  {
    var t, t' := Build(Nil, ops), Build(Nil, ops');
    forall k | IsKey(k) ensures Lookup(t, k) == Lookup(t', k) {
      if key :| Ascii(key) && Hex(key) == k {
        LookupBuild(Nil, ops, key);
        LookupBuild(Nil, ops', key);
      } else {
        LookupStray(ops, k);
        LookupStray(ops', k);
      }
    }
    Canonical(t, t', false);
  }

  // ---- Runs of batches.

  ghost predicate AllBatches(batches: seq<seq<Op>>) { forall i :: 0 <= i < |batches| ==> AllAscii(batches[i]) }

  /** The tree after a run of batches. */
  ghost function BuildAll(t: Tree, batches: seq<seq<Op>>): (r: Tree)
    requires Place(t, false) && AllBatches(batches)
    ensures Place(r, false)
    decreases |batches|
  {
    if batches == [] then t
    else var n := |batches| - 1; Build(BuildAll(t, batches[..n]), batches[n])
  }

  /** The keys set by a run of batches, in turn. */
  ghost function Flat(batches: seq<seq<Op>>): seq<Op> {
    if batches == [] then [] else Flat(batches[..|batches| - 1]) + batches[|batches| - 1]
  }

  lemma {:induction false} FlatAscii(batches: seq<seq<Op>>)
    requires AllBatches(batches)
    ensures AllAscii(Flat(batches))
  {
    if batches != [] { FlatAscii(batches[..|batches| - 1]); }
  }

  /** Two batches are one after the other. */
  lemma {:induction false} BuildConcat(t: Tree, a: seq<Op>, b: seq<Op>)
    requires Place(t, false) && AllAscii(a) && AllAscii(b)
    ensures AllAscii(a + b) && Build(t, a + b) == Build(Build(t, a), b)
    decreases |b|
  {
    if b == [] {
      assert a + b == a;
    } else {
      var n := |b| - 1;
      var front, op := b[..n], b[n];
      assert b == front + [op];
      BuildConcat(t, a, front);
      BuildConcatMore(t, a, front, op);
    }
  }

  lemma BuildConcatMore(t: Tree, a: seq<Op>, b: seq<Op>, op: Op)
    requires Place(t, false) && AllAscii(a) && AllAscii(b) && AllAscii(a + b) && Ascii(op.key)
    requires Build(t, a + b) == Build(Build(t, a), b)
    ensures AllAscii(a + (b + [op])) && AllAscii(b + [op])
    ensures Build(t, a + (b + [op])) == Build(Build(t, a), b + [op])
  {
    assert a + (b + [op]) == a + b + [op];
    assert AllAscii(a + b + [op]) && Build(t, a + b + [op]) == InsertOp(Build(t, a + b), op) by {
      BuildMore(t, a + b, op);
    }
    assert AllAscii(b + [op]) && Build(Build(t, a), b + [op]) == InsertOp(Build(Build(t, a), b), op) by {
      BuildMore(Build(t, a), b, op);
    }
  }

  lemma BuildMore(t: Tree, ops: seq<Op>, op: Op)
    requires Place(t, false) && AllAscii(ops) && Ascii(op.key)
    ensures AllAscii(ops + [op]) && Build(t, ops + [op]) == InsertOp(Build(t, ops), op)
  {
    assert (ops + [op])[..|ops|] == ops;
  }

  lemma BuildAllMore(t: Tree, batches: seq<seq<Op>>, n: nat)
    requires Place(t, false) && AllBatches(batches) && n < |batches|
    ensures BuildAll(t, batches[..n + 1]) == Build(BuildAll(t, batches[..n]), batches[n])
  {
    assert batches[..n + 1][..n] == batches[..n] && batches[..n + 1][n] == batches[n];
  }

  lemma {:induction false} BuildAllIsFlat(t: Tree, batches: seq<seq<Op>>)
    requires Place(t, false) && AllBatches(batches)
    ensures AllAscii(Flat(batches)) && BuildAll(t, batches) == Build(t, Flat(batches))
    decreases |batches|
  {
    FlatAscii(batches);
    if batches != [] {
      var n := |batches| - 1;
      BuildAllIsFlat(t, batches[..n]);
      BuildConcat(t, Flat(batches[..n]), batches[n]);
    }
  }

  /** Two runs of batches end in the same map. */
  ghost predicate SameFinalMap(batches: seq<seq<Op>>, batches': seq<seq<Op>>) {
    forall key :: Ascii(key) ==> LastSet(Flat(batches), key) == LastSet(Flat(batches'), key)
  }

  /** History independence: runs of batches that end in the same map build the same tree. */
  lemma HistoryIndependence(batches: seq<seq<Op>>, batches': seq<seq<Op>>)
    requires AllBatches(batches) && AllBatches(batches') && SameFinalMap(batches, batches')
    ensures BuildAll(Nil, batches) == BuildAll(Nil, batches')
  {
    BuildAllIsFlat(Nil, batches);
    BuildAllIsFlat(Nil, batches');
    OpsBuildTheMap(Flat(batches), Flat(batches'));
  }

  /** After a run of batches a lookup gives the last value set for the key. */
  lemma LookupBuildAll(batches: seq<seq<Op>>, key: Bytes)
    requires AllBatches(batches) && Ascii(key)
    ensures Lookup(BuildAll(Nil, batches), Hex(key)) == LastSet(Flat(batches), key)
    ensures forall i :: LastFor(Flat(batches), i, key) ==>
              Lookup(BuildAll(Nil, batches), Hex(key)) == Some(Flat(batches)[i].val)
    ensures (forall i :: 0 <= i < |Flat(batches)| ==> Flat(batches)[i].key != key) ==>
              Lookup(BuildAll(Nil, batches), Hex(key)) == None
  {
    var ops := Flat(batches);
    BuildAllIsFlat(Nil, batches);
    LookupBuild(Nil, ops, key);
    forall i | LastFor(ops, i, key) ensures LastSet(ops, key) == Some(ops[i].val) { LastSetIs(ops, key, i); }
    if forall i :: 0 <= i < |ops| ==> ops[i].key != key { NoneSet(ops, key); }
  }

  /** Operation `i` is the last one for the key. */
  ghost predicate LastFor(ops: seq<Op>, i: int, key: Bytes) {
    0 <= i < |ops| && ops[i].key == key && forall j :: i < j < |ops| ==> ops[j].key != key
  }

  ghost function KeysOf(ops: seq<Op>): set<Bytes> { set i | 0 <= i < |ops| :: ops[i].key }

  lemma {:induction false} LastSetOfKey(ops: seq<Op>, key: Bytes)
    ensures LastSet(ops, key).Some? <==> key in KeysOf(ops)
  {
    if ops != [] {
      LastSetOfKey(ops[..|ops| - 1], key);
      KeysOfMore(ops);
    }
  }

  /** The count is the number of distinct keys. */
  lemma {:induction false} CountBuild(ops: seq<Op>)
    requires AllAscii(ops)
    ensures Count(Build(Nil, ops)) == |KeysOf(ops)|
    decreases |ops|
  {
    if ops != [] {
      var n := |ops| - 1;
      CountBuild(ops[..n]);
      CountOneMore(Build(Nil, ops[..n]), ops[..n], ops[n]);
      KeysOfMore(ops);
    }
  }

  lemma CountOneMore(t: Tree, ops: seq<Op>, op: Op)
    requires AllAscii(ops) && Ascii(op.key) && t == Build(Nil, ops)
    ensures Count(Insert(t, Hex(op.key), op.val)) == Count(t) + if op.key in KeysOf(ops) then 0 else 1
  {
    LookupBuild(Nil, ops, op.key);
    LastSetOfKey(ops, op.key);
    CountInsert(t, Hex(op.key), op.val);
  }

  lemma KeysOfMore(ops: seq<Op>)
    requires ops != []
    ensures KeysOf(ops) == KeysOf(ops[..|ops| - 1]) + {ops[|ops| - 1].key}
  {
    var n := |ops| - 1;
    forall key | key in KeysOf(ops) ensures key in KeysOf(ops[..n]) + {ops[n].key} {
      var i :| 0 <= i < |ops| && ops[i].key == key;
      if i < n { assert ops[..n][i].key == key; }
    }
    forall key | key in KeysOf(ops[..n]) ensures key in KeysOf(ops) {
      var i :| 0 <= i < n && ops[..n][i].key == key;
      assert ops[i].key == key;
    }
  }
}
