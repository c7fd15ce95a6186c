/** Digests and what is hashed to them. The hash function is a parameter `H` of everything below: no
    property of it is assumed anywhere. */
module Hashing {
  /** The 20 bytes of a hash. They are compared and copied, never looked into. */
  type Digest(==, !new, 0)

  /** The bytes of an inner node: one digest (20 bytes) or two side by side (40 bytes). */
  datatype Block = One(only: Digest) | Two(left: Digest, right: Digest)

  type HashFn = Block -> Digest

}

/** The Merkle tree that all three ledgers build: a level is paired up from the left, and a lone last
    node is hashed alone. */
module Merkle {
  import opened Options
  import opened Hashing

  /** What is hashed to give node `i` of the level above `level`. */
  function Input(level: seq<Digest>, i: nat): Block
    requires 2 * i < |level|
  {
    if 2 * i + 1 < |level| then Two(level[2 * i], level[2 * i + 1]) else One(level[2 * i])
  }

  /** The level above `level`. */
  function Up(H: HashFn, level: seq<Digest>): (up: seq<Digest>)
    ensures |up| == (|level| + 1) / 2
  {
    seq((|level| + 1) / 2, i requires 0 <= i < (|level| + 1) / 2 => H(Input(level, i)))
  }

  /** The from-scratch root: pair up until one node is left. */
  function Root(H: HashFn, level: seq<Digest>): Digest
    requires level != []
    decreases |level|
  {
    if |level| == 1 then level[0] else Root(H, Up(H, level))
  }

  /** Number of nodes at height `j` of a tree over `n` leaves. */
  function Width(n: nat, j: nat): nat {
    if j == 0 then n else (Width(n, j - 1) + 1) / 2
  }

  /** Number of nodes at height `j` whose leaves are all present; also the ancestor of leaf `n`. */
  function Whole(n: nat, j: nat): nat {
    if j == 0 then n else Whole(n, j - 1) / 2
  }

  function Height(n: nat): nat {
    if n <= 1 then 0 else 1 + Height((n + 1) / 2)
  }

  /** Level `j` of the tree over `leaves`. */
  function Level(H: HashFn, leaves: seq<Digest>, j: nat): (level: seq<Digest>)
    ensures |level| == Width(|leaves|, j)
  {
    if j == 0 then leaves else Up(H, Level(H, leaves, j - 1))
  }

  lemma {:induction false} WidthWhole(n: nat, j: nat)
    ensures Whole(n, j) <= Width(n, j) <= Whole(n, j) + 1
    ensures n > 0 ==> Width(n, j) > 0
  {
    if j > 0 { WidthWhole(n, j - 1); }
  }

  lemma {:induction false} WholeMonotone(m: nat, n: nat, j: nat)
    requires m <= n
    ensures Whole(m, j) <= Whole(n, j)
  {
    if j > 0 { WholeMonotone(m, n, j - 1); }
  }

  lemma {:induction false} WholeOfZero(j: nat)
    ensures Whole(0, j) == 0
  {
    if j > 0 { WholeOfZero(j - 1); }
  }

  /** The last node of height `j` is the ancestor of the last leaf. */
  lemma {:induction false} WidthOfSuccessor(n: nat, j: nat)
    ensures Width(n + 1, j) == Whole(n, j) + 1
  {
    if j > 0 { WidthOfSuccessor(n, j - 1); }
  }

  lemma {:induction false} AncestorInWidth(i: nat, n: nat, j: nat)
    requires i < n
    ensures Whole(i, j) < Width(n, j)
  {
    WholeMonotone(i, n - 1, j);
    WidthOfSuccessor(n - 1, j);
  }

  lemma {:induction false} HeightOfWidth(n: nat, j: nat)
    requires j == 0 || Width(n, j - 1) > 1
    ensures Height(n) == j + Height(Width(n, j))
  {
    if j > 0 {
      WidthShrinks(n, j - 1);
      HeightOfWidth(n, j - 1);
    }
  }

  lemma {:induction false} WidthShrinks(n: nat, j: nat)
    requires Width(n, j) > 1
    ensures j == 0 || Width(n, j - 1) > 1
  {
  }

  lemma {:induction false} WidthAtHeight(n: nat, j: nat)
    requires n > 0
    ensures j < Height(n) ==> Width(n, j) > 1
    ensures j == Height(n) ==> Width(n, j) == 1
    ensures j > Height(n) ==> Width(n, j) == 1
  {
    if j == 0 {
    } else {
      WidthAtHeight(n, j - 1);
      if j <= Height(n) {
        HeightOfWidth(n, j);
        WidthWhole(n, j);
      }
    }
  }

  lemma {:induction false} WholeBelowHeight(n: nat, j: nat)
    requires Whole(n, j) > 0
    ensures j <= Height(n)
  {
    if j > 0 {
      WholeBelowHeight(n, j - 1);
      if j > Height(n) {
        WidthAtHeight(n, j - 1);
        WidthWhole(n, j - 1);
      }
    }
  }

  lemma LevelAt(H: HashFn, leaves: seq<Digest>, j: nat, i: nat)
    requires i < Width(|leaves|, j + 1)
    ensures 2 * i < Width(|leaves|, j)
    ensures Level(H, leaves, j + 1)[i] == H(Input(Level(H, leaves, j), i))
  {
  }

  lemma {:induction false} LevelOfUp(H: HashFn, leaves: seq<Digest>, j: nat)
    ensures Level(H, Up(H, leaves), j) == Level(H, leaves, j + 1)
  {
    if j > 0 { LevelOfUp(H, leaves, j - 1); }
  }

  /** The root is the single node of the top level. */
  lemma {:induction false} RootIsTop(H: HashFn, leaves: seq<Digest>)
    requires leaves != []
    ensures Width(|leaves|, Height(|leaves|)) == 1
    ensures Root(H, leaves) == Level(H, leaves, Height(|leaves|))[0]
    decreases |leaves|
  {
    WidthAtHeight(|leaves|, Height(|leaves|));
    if |leaves| > 1 {
      var up := Up(H, leaves);
      RootIsTop(H, up);
      LevelOfUp(H, leaves, Height(|up|));
    }
  }

  /** A node whose leaves are all present never changes again. */
  lemma {:induction false} WholeNodesAreFinal(H: HashFn, leaves: seq<Digest>, more: seq<Digest>, j: nat, i: nat)
    requires i < Whole(|leaves|, j)
    ensures i < Width(|leaves|, j) && i < Width(|leaves + more|, j)
    ensures Level(H, leaves, j)[i] == Level(H, leaves + more, j)[i]
  {
    WholeInWidth(|leaves|, |leaves + more|, j, i);
    if j > 0 {
      WholeNodesAreFinal(H, leaves, more, j - 1, 2 * i);
      WholeNodesAreFinal(H, leaves, more, j - 1, 2 * i + 1);
      SameParent(H, leaves, leaves + more, j - 1, i);
    }
  }

  lemma WholeInWidth(m: nat, n: nat, j: nat, i: nat)
    requires m <= n && i < Whole(m, j)
    ensures i < Width(m, j) && i < Width(n, j)
  {
    WidthWhole(m, j);
    WholeMonotone(m, n, j);
    WidthWhole(n, j);
  }

  lemma SameParent(H: HashFn, a: seq<Digest>, b: seq<Digest>, j: nat, i: nat)
    requires 2 * i + 1 < Width(|a|, j) && 2 * i + 1 < Width(|b|, j)
    requires Level(H, a, j)[2 * i] == Level(H, b, j)[2 * i] && Level(H, a, j)[2 * i + 1] == Level(H, b, j)[2 * i + 1]
    ensures Level(H, a, j + 1)[i] == Level(H, b, j + 1)[i]
  {
    LevelAt(H, a, j, i);
    LevelAt(H, b, j, i);
  }

  /** The authentication path of leaf `i`: at each height the sibling of its ancestor, if it has one. */
  function Sibling(level: seq<Digest>, i: nat): Option<Digest>
    requires i < |level|
  {
    if i % 2 == 1 then Some(level[i - 1])
    else if i + 1 < |level| then Some(level[i + 1])
    else None
  }

  /** 0 when the sibling is on the left, 1 when it is (or would be) on the right. */
  function Side(i: nat): nat { 1 - i % 2 }

  /** The bytes hashed to give the parent of the ancestor of leaf `i` at height `j`. */
  function PathInput(H: HashFn, leaves: seq<Digest>, i: nat, j: nat): Block
    requires i < |leaves|
  {
    AncestorInWidth(i, |leaves|, j);
    Input(Level(H, leaves, j), Whole(i, j) / 2)
  }

  /** The node that `PathInput` hashes to. */
  lemma {:induction false} PathStep(H: HashFn, leaves: seq<Digest>, i: nat, j: nat)
    requires i < |leaves|
    ensures Whole(i, j + 1) < Width(|leaves|, j + 1)
    ensures Level(H, leaves, j + 1)[Whole(i, j + 1)] == H(PathInput(H, leaves, i, j))
  {
    AncestorInWidth(i, |leaves|, j);
    AncestorInWidth(i, |leaves|, j + 1);
    LevelAt(H, leaves, j, Whole(i, j + 1));
  }

  ghost predicate Collide(H: HashFn, a: Block, b: Block) { a != b && H(a) == H(b) }

  /** How a verifier turns its accumulator, a proof entry ("" is `None`) and a side into bytes to hash. */
  type StepFn = (Digest, Option<Digest>, nat) -> Block

  /** What the two `Verify` loops have in common: an entry is joined on the given side, and a missing
      right entry leaves the accumulator alone. On a missing left entry they differ, but the
      accumulator still ends the input. */
  ghost predicate IsStep(step: StepFn) {
    forall acc: Digest, e: Option<Digest>, side: nat :: StepAt(step, acc, e, side)
  }

  ghost predicate StepAt(step: StepFn, acc: Digest, e: Option<Digest>, side: nat) {
    var input := step(acc, e, side);
    && (e.Some? ==> input == if side == 0 then Two(e.value, acc) else Two(acc, e.value))
    && (e.None? && side != 0 ==> input == One(acc))
    && (e.None? && side == 0 ==> input == One(acc) || (input.Two? && input.right == acc))
  }

  lemma HonestStep(step: StepFn, level: seq<Digest>, a: nat)
    requires IsStep(step) && a < |level|
    ensures step(level[a], Sibling(level, a), Side(a)) == Input(level, a / 2)
  {
    assert StepAt(step, level[a], Sibling(level, a), Side(a));
  }

  /** The verifier's accumulator after `k` proof entries. */
  function Climb(H: HashFn, step: StepFn, start: Digest, proof: seq<Option<Digest>>, pos: seq<nat>, k: nat): Digest
    requires k <= |proof| <= |pos|
  {
    if k == 0 then start else H(step(Climb(H, step, start, proof, pos, k - 1), proof[k - 1], pos[k - 1]))
  }

  /** `proof` and `pos` are the honest authentication path of leaf `i`. */
  ghost predicate IsPath(H: HashFn, leaves: seq<Digest>, i: nat, proof: seq<Option<Digest>>, pos: seq<nat>)
    requires i < |leaves|
  {
    && |proof| == Height(|leaves|)
    && IsSides(i, |proof|, pos)
    && forall j :: 0 <= j < |proof| ==> IsSibling(H, leaves, i, j, proof[j])
  }

  ghost predicate IsSibling(H: HashFn, leaves: seq<Digest>, i: nat, j: nat, e: Option<Digest>) {
    Whole(i, j) < Width(|leaves|, j) && e == Sibling(Level(H, leaves, j), Whole(i, j))
  }

  ghost predicate IsSides(i: nat, h: nat, pos: seq<nat>) {
    |pos| == h && forall j {:trigger pos[j]} :: 0 <= j < h ==> pos[j] == Side(Whole(i, j))
  }

  lemma {:induction false} ClimbFollowsPath(H: HashFn, step: StepFn, leaves: seq<Digest>, i: nat,
                                            proof: seq<Option<Digest>>, pos: seq<nat>, k: nat)
    requires IsStep(step) && i < |leaves| && IsPath(H, leaves, i, proof, pos) && k <= |proof|
    ensures Whole(i, k) < Width(|leaves|, k)
    ensures Climb(H, step, leaves[i], proof, pos, k) == Level(H, leaves, k)[Whole(i, k)]
  {
    if k > 0 {
      ClimbFollowsPath(H, step, leaves, i, proof, pos, k - 1);
      assert IsSibling(H, leaves, i, k - 1, proof[k - 1]) && pos[k - 1] == Side(Whole(i, k - 1));
      ClimbOne(H, step, leaves, i, k - 1, proof[k - 1]);
    }
  }

  /** One honest step leads from a node on the path to the next. */
  lemma ClimbOne(H: HashFn, step: StepFn, leaves: seq<Digest>, i: nat, j: nat, e: Option<Digest>)
    requires IsStep(step) && i < |leaves| && IsSibling(H, leaves, i, j, e)
    ensures Whole(i, j + 1) < Width(|leaves|, j + 1)
    ensures H(step(Level(H, leaves, j)[Whole(i, j)], e, Side(Whole(i, j)))) == Level(H, leaves, j + 1)[Whole(i, j + 1)]
  {
    PathStep(H, leaves, i, j);
    HonestStep(step, Level(H, leaves, j), Whole(i, j));
  }

  /** The first `h` entries of the honest path. */
  ghost predicate IsPathUpTo(H: HashFn, leaves: seq<Digest>, i: nat, h: nat, proof: seq<Option<Digest>>,
                             pos: seq<nat>)
  {
    |proof| == h && IsSides(i, h, pos) && forall j :: 0 <= j < h ==> IsSibling(H, leaves, i, j, proof[j])
  }

  lemma PathMore(H: HashFn, leaves: seq<Digest>, i: nat, h: nat, proof: seq<Option<Digest>>, pos: seq<nat>,
                 e: Option<Digest>, side: nat)
    requires IsPathUpTo(H, leaves, i, h, proof, pos) && IsSibling(H, leaves, i, h, e) && side == Side(Whole(i, h))
    ensures IsPathUpTo(H, leaves, i, h + 1, proof + [e], pos + [side])
  {
    forall j | 0 <= j < h + 1 ensures IsSibling(H, leaves, i, j, (proof + [e])[j]) {
      if j < h { assert IsSibling(H, leaves, i, j, proof[j]); }
    }
  }

  /** Completeness: the honest path of every leaf leads to the root. */
  lemma PathReachesRoot(H: HashFn, step: StepFn, leaves: seq<Digest>, i: nat, proof: seq<Option<Digest>>, pos: seq<nat>)
    requires IsStep(step) && i < |leaves| && IsPath(H, leaves, i, proof, pos)
    ensures Climb(H, step, leaves[i], proof, pos, |proof|) == Root(H, leaves)
  {
    RootIsTop(H, leaves);
    ClimbFollowsPath(H, step, leaves, i, proof, pos, |proof|);
  }

  /** At height `j` the verifier hashes other bytes than the honest tree, to the same digest. */
  ghost predicate CollidesAt(H: HashFn, step: StepFn, leaves: seq<Digest>, i: nat, start: Digest,
                             proof: seq<Option<Digest>>, pos: seq<nat>, j: nat)
    requires i < |leaves|
  {
    && j < |proof| <= |pos|
    && Collide(H, ClimbInput(H, step, start, proof, pos, j), PathInput(H, leaves, i, j))
  }

  lemma {:induction false} BindingFrom(H: HashFn, step: StepFn, leaves: seq<Digest>, i: nat, start: Digest,
                                       proof: seq<Option<Digest>>, pos: seq<nat>, k: nat)
    requires IsStep(step) && i < |leaves| && k <= |proof| && IsSides(i, |proof|, pos)
    requires Whole(i, k) < Width(|leaves|, k)
    requires Climb(H, step, start, proof, pos, k) == Level(H, leaves, k)[Whole(i, k)]
    ensures start == leaves[i] || exists j :: CollidesAt(H, step, leaves, i, start, proof, pos, j)
  {
    if k > 0 {
      PathStep(H, leaves, i, k - 1);
      if ClimbInput(H, step, start, proof, pos, k - 1) == PathInput(H, leaves, i, k - 1) {
        InputHoldsAncestor(H, step, leaves, i, k - 1, Climb(H, step, start, proof, pos, k - 1), proof[k - 1]);
        BindingFrom(H, step, leaves, i, start, proof, pos, k - 1);
      } else {
        assert CollidesAt(H, step, leaves, i, start, proof, pos, k - 1);
      }
    }
  }

  /** Binding: a proof of the honest length with the honest sides for `i` that climbs to the honest root
      starts at leaf `i`, or hashes at some height bytes that collide with the honest ones. */
  lemma AcceptedProofBinds(H: HashFn, step: StepFn, leaves: seq<Digest>, i: nat, start: Digest,
                           proof: seq<Option<Digest>>, pos: seq<nat>)
    requires IsStep(step) && i < |leaves|
    requires |proof| == Height(|leaves|) && IsSides(i, |proof|, pos)
    requires Climb(H, step, start, proof, pos, |proof|) == Root(H, leaves)
    ensures start == leaves[i] || exists j :: CollidesAt(H, step, leaves, i, start, proof, pos, j)
  {
    RootIsTop(H, leaves);
    AncestorInWidth(i, |leaves|, |proof|);
    BindingFrom(H, step, leaves, i, start, proof, pos, |proof|);
  }

  /** At height `j` nodes `i` of the two trees are hashed from other bytes, to one digest. */
  ghost predicate RowsCollide(H: HashFn, a: seq<Digest>, b: seq<Digest>, j: nat, i: nat) {
    && 2 * i < Width(|a|, j) && 2 * i < Width(|b|, j)
    && Collide(H, Input(Level(H, a, j), i), Input(Level(H, b, j), i))
  }

  /** The root and the height bind all leaves: two lists that give the same are the same, or two nodes collide. */
  lemma {:induction false} SameRootSameLeaves(H: HashFn, a: seq<Digest>, b: seq<Digest>)
    requires a != [] && b != [] && Height(|a|) == Height(|b|) && Root(H, a) == Root(H, b)
    ensures a == b || exists j, i :: RowsCollide(H, a, b, j, i)
    decreases |a|
  {
    if |a| == 1 {
      assert a == [a[0]] && b == [b[0]];
    } else {
      SameRootSameLeaves(H, Up(H, a), Up(H, b));
      if Up(H, a) == Up(H, b) {
        SameRowBelow(H, a, b);
      } else {
        var j: nat, i: nat :| RowsCollide(H, Up(H, a), Up(H, b), j, i);
        LevelOfUp(H, a, j);
        LevelOfUp(H, b, j);
        assert RowsCollide(H, a, b, j + 1, i);
      }
    }
  }

  lemma SameRowBelow(H: HashFn, a: seq<Digest>, b: seq<Digest>)
    requires a != [] && Up(H, a) == Up(H, b)
    ensures a == b || exists i :: RowsCollide(H, a, b, 0, i)
  {
    assert Level(H, a, 0) == a && Level(H, b, 0) == b;
    var last := |Up(H, a)| - 1;
    if |a| != |b| {
      assert Up(H, a)[last] == Up(H, b)[last];
      assert RowsCollide(H, a, b, 0, last);
    } else if k :| 0 <= k < |a| && a[k] != b[k] {
      assert Up(H, a)[k / 2] == Up(H, b)[k / 2];
      assert RowsCollide(H, a, b, 0, k / 2);
    }
  }

  /** The height has to be known: a row of hashes has the root of the leaves below it. */
  lemma RowHasSameRoot(H: HashFn, leaves: seq<Digest>)
    requires |leaves| > 1
    ensures Root(H, Up(H, leaves)) == Root(H, leaves) && Height(|Up(H, leaves)|) + 1 == Height(|leaves|)
  {
  }

  /** The node that the sides lead to from the root: `proof[..j]` are the steps below it, and `h` is the height at
      which the proof starts. Where there is no right child both sides lead to the only one. */
  function LedTo(n: nat, h: nat, pos: seq<nat>, d: nat, j: nat): nat
    requires j <= d <= |pos|
    decreases d - j
  {
    if j == d then 0
    else
      var parent := LedTo(n, h, pos, d, j + 1);
      if pos[j] == 0 && 2 * parent + 1 < Width(n, h + j) then 2 * parent + 1 else 2 * parent
  }

  lemma {:induction false} LedInside(n: nat, h: nat, pos: seq<nat>, d: nat, j: nat)
    requires j <= d <= |pos| && n > 0 && h + d == Height(n)
    ensures LedTo(n, h, pos, d, j) < Width(n, h + j)
    ensures j < d ==> LedTo(n, h, pos, d, j) / 2 == LedTo(n, h, pos, d, j + 1) < Width(n, h + j + 1)
    decreases d - j
  {
    if j < d {
      LedInside(n, h, pos, d, j + 1);
    } else {
      WidthAtHeight(n, h + d);
    }
  }

  /** At step `j` the verifier hashes other bytes than the honest tree does for the node led to, to one digest. */
  ghost predicate CollidesOn(H: HashFn, step: StepFn, leaves: seq<Digest>, h: nat, start: Digest,
                             proof: seq<Option<Digest>>, pos: seq<nat>, j: nat)
  {
    && j < |proof| <= |pos| && 2 * LedTo(|leaves|, h, pos, |proof|, j + 1) < Width(|leaves|, h + j)
    && Collide(H, ClimbInput(H, step, start, proof, pos, j),
               Input(Level(H, leaves, h + j), LedTo(|leaves|, h, pos, |proof|, j + 1)))
  }

  ghost predicate IsNode(H: HashFn, leaves: seq<Digest>, j: nat, i: nat, x: Digest) {
    i < Width(|leaves|, j) && x == Level(H, leaves, j)[i]
  }

  /** Before step `j` the verifier is at the node led to, or the step collides. */
  lemma LedStep(H: HashFn, step: StepFn, leaves: seq<Digest>, h: nat, start: Digest,
                proof: seq<Option<Digest>>, pos: seq<nat>, j: nat)
    requires IsStep(step) && leaves != [] && j < |proof| <= |pos| && h + |proof| == Height(|leaves|)
    requires IsNode(H, leaves, h + j + 1, LedTo(|leaves|, h, pos, |proof|, j + 1),
                    Climb(H, step, start, proof, pos, j + 1))
    ensures IsNode(H, leaves, h + j, LedTo(|leaves|, h, pos, |proof|, j), Climb(H, step, start, proof, pos, j))
            || CollidesOn(H, step, leaves, h, start, proof, pos, j)
  {
    var p, acc := LedTo(|leaves|, h, pos, |proof|, j + 1), Climb(H, step, start, proof, pos, j);
    var input := ClimbInput(H, step, start, proof, pos, j);
    LevelAt(H, leaves, h + j, p);
    LedInside(|leaves|, h, pos, |proof|, j);
    assert H(input) == H(Input(Level(H, leaves, h + j), p));
    if input == Input(Level(H, leaves, h + j), p) {
      StepHoldsChild(step, Level(H, leaves, h + j), p, acc, proof[j], pos[j]);
    }
  }

  lemma {:induction false} LedBindingFrom(H: HashFn, step: StepFn, leaves: seq<Digest>, h: nat, start: Digest,
                                          proof: seq<Option<Digest>>, pos: seq<nat>, k: nat)
    requires IsStep(step) && leaves != [] && k <= |proof| <= |pos| && h + |proof| == Height(|leaves|)
    requires IsNode(H, leaves, h + k, LedTo(|leaves|, h, pos, |proof|, k), Climb(H, step, start, proof, pos, k))
    ensures IsNode(H, leaves, h, LedTo(|leaves|, h, pos, |proof|, 0), start)
            || exists j :: CollidesOn(H, step, leaves, h, start, proof, pos, j)
  {
    if k > 0 {
      LedStep(H, step, leaves, h, start, proof, pos, k - 1);
      if !CollidesOn(H, step, leaves, h, start, proof, pos, k - 1) {
        LedBindingFrom(H, step, leaves, h, start, proof, pos, k - 1);
      }
    }
  }

  lemma StepHoldsChild(step: StepFn, level: seq<Digest>, p: nat, acc: Digest, e: Option<Digest>, side: nat)
    requires IsStep(step) && 2 * p < |level| && step(acc, e, side) == Input(level, p)
    ensures acc == level[if side == 0 && 2 * p + 1 < |level| then 2 * p + 1 else 2 * p]
  {
    assert StepAt(step, acc, e, side);
  }

  /** Binding for any sides and any length up to the tree's height: a proof that climbs to the honest root starts at
      the node that its sides lead to, or hashes at some step bytes that collide with the honest ones. */
  lemma AnyAcceptedProofBinds(H: HashFn, step: StepFn, leaves: seq<Digest>, h: nat, start: Digest,
                              proof: seq<Option<Digest>>, pos: seq<nat>)
    requires IsStep(step) && leaves != [] && |proof| <= |pos| && h + |proof| == Height(|leaves|)
    requires Climb(H, step, start, proof, pos, |proof|) == Root(H, leaves)
    ensures IsNode(H, leaves, h, LedTo(|leaves|, h, pos, |proof|, 0), start)
            || exists j :: CollidesOn(H, step, leaves, h, start, proof, pos, j)
  {
    assert IsNode(H, leaves, h + |proof|, 0, Root(H, leaves)) by { RootIsTop(H, leaves); }
    LedBindingFrom(H, step, leaves, h, start, proof, pos, |proof|);
  }

  /** What the verifier hashes at height `k`. */
  function ClimbInput(H: HashFn, step: StepFn, start: Digest, proof: seq<Option<Digest>>, pos: seq<nat>, k: nat): Block
    requires k < |proof| <= |pos|
  {
    step(Climb(H, step, start, proof, pos, k), proof[k], pos[k])
  }

  lemma InputHoldsAncestor(H: HashFn, step: StepFn, leaves: seq<Digest>, i: nat, j: nat, acc: Digest, e: Option<Digest>)
    requires IsStep(step) && i < |leaves|
    requires step(acc, e, Side(Whole(i, j))) == PathInput(H, leaves, i, j)
    ensures Whole(i, j) < Width(|leaves|, j) && acc == Level(H, leaves, j)[Whole(i, j)]
  {
    AncestorInWidth(i, |leaves|, j);
    StepHoldsNode(step, Level(H, leaves, j), Whole(i, j), acc, e);
  }

  lemma StepHoldsNode(step: StepFn, level: seq<Digest>, a: nat, acc: Digest, e: Option<Digest>)
    requires IsStep(step) && a < |level| && step(acc, e, Side(a)) == Input(level, a / 2)
    ensures acc == level[a]
  {
    assert StepAt(step, acc, e, Side(a));
  }

  /** Climbing two paths one after the other. */
  lemma {:induction false} ClimbTwoPaths(H: HashFn, step: StepFn, start: Digest, p1: seq<Option<Digest>>, s1: seq<nat>,
                                         p2: seq<Option<Digest>>, s2: seq<nat>, k: nat)
    requires |p1| == |s1| && |p2| == |s2| && k <= |p2|
    ensures Climb(H, step, start, p1 + p2, s1 + s2, |p1| + k)
              == Climb(H, step, Climb(H, step, start, p1, s1, |p1|), p2, s2, k)
  {
    if k > 0 {
      ClimbTwoPaths(H, step, start, p1, s1, p2, s2, k - 1);
    } else {
      ClimbPrefix(H, step, start, p1, s1, p2, s2, |p1|);
    }
  }

  lemma {:induction false} ClimbPrefix(H: HashFn, step: StepFn, start: Digest, p1: seq<Option<Digest>>, s1: seq<nat>,
                                       p2: seq<Option<Digest>>, s2: seq<nat>, k: nat)
    requires |p1| == |s1| && |p2| == |s2| && k <= |p1|
    ensures Climb(H, step, start, p1 + p2, s1 + s2, k) == Climb(H, step, start, p1, s1, k)
  {
    if k > 0 { ClimbPrefix(H, step, start, p1, s1, p2, s2, k - 1); }
  }

  lemma ClimbConcatenation(H: HashFn, step: StepFn, start: Digest, p1: seq<Option<Digest>>, s1: seq<nat>,
                           p2: seq<Option<Digest>>, s2: seq<nat>)
    requires |p1| == |s1| && |p2| == |s2|
    ensures Climb(H, step, start, p1 + p2, s1 + s2, |p1 + p2|)
              == Climb(H, step, Climb(H, step, start, p1, s1, |p1|), p2, s2, |p2|)
  {
    ClimbTwoPaths(H, step, start, p1, s1, p2, s2, |p2|);
    assert |p1 + p2| == |p1| + |p2|;
  }
}
