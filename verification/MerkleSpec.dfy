/**
  What a Roughtime Merkle tree is, on plain rows of hashes.

  `Row` k of a batch is obtained from the leaf row by k times padding an odd row with a zero node
  and hashing neighbours. `NodeAt` is an independent definition of the same tree from the root
  down; `RowIsNodeAt` and `RootIsTopNode` connect the two.
*/
module MerkleSpec {
  import opened Primitives

  datatype Hash = Hash(bytes: Bytes32)

  /** What a tree node is the hash of. */
  datatype HashInput = LeafInput(data: Bytes) | NodeInput(left: Hash, right: Hash) {

    /** The tweaked byte string that is fed to the digest. */
    function Octets(): Bytes {
      match this
      case LeafInput(data) => [0x00] + data
      case NodeInput(left, right) => [0x01] + left.bytes + right.bytes
    }
  }

  type Hasher = HashInput -> Hash

  /** The tree's hash, given the digest truncated to 32 bytes. */
  function TreeHasher(digest: Bytes -> Bytes32): Hasher {
    (x: HashInput) => Hash(digest(x.Octets()))
  }

  const ZERO_NODE: Hash := Hash(Zeros(32))

  /** n / 2, counted in twos; `HalfIsQuotient` gives the operator form. */
  function Half(n: nat): (h: nat)
    ensures h + h <= n <= h + h + 1
  {
    if n < 2 then 0 else Half(n - 2) + 1
  }

  predicate Odd(n: nat) {
    Half(n) + Half(n) != n
  }

  lemma HalfIsQuotient(n: nat)
    ensures Half(n) == n / 2
    ensures Odd(n) <==> n % 2 == 1
  {
  }

  /** Below the parent at `parent`, the child on the side the low bit of `index` names. */
  function Child(parent: nat, index: nat): nat {
    if Odd(index) then parent + parent + 1 else parent + parent
  }

  function Leaf(hash: Hasher, data: Bytes): Hash { hash(LeafInput(data)) }

  function Node(hash: Hasher, left: Hash, right: Hash): Hash { hash(NodeInput(left, right)) }

  function LeafRow(hash: Hasher, batch: seq<Bytes>): (row: seq<Hash>)
    ensures |row| == |batch|
    ensures forall i :: 0 <= i < |batch| ==> row[i] == Leaf(hash, batch[i])
  {
    seq(|batch|, i requires 0 <= i < |batch| => Leaf(hash, batch[i]))
  }

  /** A row that is about to be paired up; the root row of one node is left alone. */
  function Pad(row: seq<Hash>): (padded: seq<Hash>)
    ensures |row| > 1 ==> !Odd(|padded|)
    ensures |row| <= |padded| <= |row| + 1
  {
    if |row| > 1 && Odd(|row|) then row + [ZERO_NODE] else row
  }

  /** What is hashed to make parent i of a row. */
  function PairInput(row: seq<Hash>, i: nat): HashInput
    requires i + i + 1 < |row|
  {
    NodeInput(row[i + i], row[i + i + 1])
  }

  function Parents(hash: Hasher, row: seq<Hash>): (parents: seq<Hash>)
    ensures |parents| == Half(|row|)
  {
    seq<Hash>(Half(|row|), i requires 0 <= i < Half(|row|) => hash(PairInput(row, i)))
  }

  lemma ParentAt(hash: Hasher, row: seq<Hash>, i: nat)
    requires i < Half(|row|)
    ensures Parents(hash, row)[i] == hash(PairInput(row, i))
  {
  }

  function Above(hash: Hasher, row: seq<Hash>): (above: seq<Hash>)
    ensures |row| <= 1 ==> above == []
    ensures |row| > 1 ==> |above| == Half(|row| + 1)
  {
    Parents(hash, Pad(row))
  }

  function Row(hash: Hasher, leaves: seq<Hash>, level: nat): seq<Hash> {
    if level == 0 then leaves else Above(hash, Row(hash, leaves, level - 1))
  }

  function Depth(n: nat): nat {
    if n <= 1 then 0 else 1 + Depth(Half(n + 1))
  }

  function Root(hash: Hasher, leaves: seq<Hash>): Hash
    requires leaves != []
    decreases |leaves|
  {
    if |leaves| == 1 then leaves[0] else Root(hash, Above(hash, leaves))
  }

  /** Sibling hashes from leaf `index` up to, but excluding, the root. */
  function PathOf(hash: Hasher, leaves: seq<Hash>, index: nat): (path: seq<Hash>)
    requires index < |Pad(leaves)|
    ensures |path| == Depth(|leaves|)
    decreases |leaves|
  {
    if |leaves| <= 1 then []
    else
      var padded := Pad(leaves);
      [padded[Sibling(index)]] + PathOf(hash, Above(hash, leaves), Half(index))
  }

  function Sibling(index: nat): nat {
    if Odd(index) then index - 1 else index + 1
  }

  function StepInput(index: nat, node: Hash, sibling: Hash): HashInput {
    if Odd(index) then NodeInput(sibling, node) else NodeInput(node, sibling)
  }

  /** The hash obtained by climbing `path` from `node`, taking the side from the bits of `index`. */
  function Climb(hash: Hasher, index: nat, node: Hash, path: seq<Hash>): Hash
    decreases |path|
  {
    if path == [] then node
    else Climb(hash, Half(index), hash(StepInput(index, node, path[0])), path[1..])
  }

  // ---- The tree seen from the root -------------------------------------------------------

  function Pow2(n: nat): (p: nat)
    ensures p > 0
  {
    if n == 0 then 1 else Pow2(n - 1) + Pow2(n - 1)
  }

  /** The m low bits of an index: index mod 2^m. */
  function LowBits(index: nat, m: nat): nat
    decreases m
  {
    if m == 0 then 0 else Child(LowBits(Half(index), m - 1), index)
  }

  function Shift(index: nat, k: nat): nat
    decreases k
  {
    if k == 0 then index else Shift(Half(index), k - 1)
  }

  lemma {:induction false} BitsRecombine(index: nat, m: nat)
    ensures index == Shift(index, m) * Pow2(m) + LowBits(index, m)
    ensures LowBits(index, m) < Pow2(m)
    decreases m
  {
    if m > 0 {
      BitsRecombine(Half(index), m - 1);
      Distribute(Shift(index, m), Pow2(m - 1));
    }
  }

  lemma Distribute(q: nat, p: nat)
    ensures q * (p + p) == q * p + q * p
  {
  }

  /** Dropping m bits and keeping m bits are quotient and remainder by 2^m. */
  lemma BitsAreDivision(index: nat, m: nat)
    ensures LowBits(index, m) == index % Pow2(m)
    ensures Shift(index, m) == index / Pow2(m)
  {
    BitsRecombine(index, m);
    Quotient(index, Pow2(m), Shift(index, m), LowBits(index, m));
  }

  /** Number of real (non-padding) nodes on a level of a tree over n leaves. */
  function Width(n: nat, level: nat): nat {
    if level == 0 then n else Half(Width(n, level - 1) + 1)
  }

  /** The node at position i of a level: real nodes hash the two nodes below, all others are zero. */
  function NodeAt(hash: Hasher, leaves: seq<Hash>, level: nat, i: nat): Hash
    decreases level
  {
    if i >= Width(|leaves|, level) then ZERO_NODE
    else if level == 0 then leaves[i]
    else Node(hash, NodeAt(hash, leaves, level - 1, i + i), NodeAt(hash, leaves, level - 1, i + i + 1))
  }

  /** Width is the number of leaves divided by 2^level, rounded up. */
  lemma {:induction false} WidthIsCeiling(n: nat, level: nat)
    ensures Width(n, level) == (n + Pow2(level) - 1) / Pow2(level)
  {
    if level > 0 {
      WidthIsCeiling(n, level - 1);
      HalveCeil(n, Pow2(level - 1));
      HalfIsQuotient(Width(n, level - 1) + 1);
    }
  }

  lemma HalveCeil(n: nat, p: nat)
    requires p > 0
    ensures (n + 2 * p - 1) / (2 * p) == ((n + p - 1) / p + 1) / 2
  {
    var w := (n + p - 1) / p;
    var r := (n + p - 1) % p;
    assert n + p - 1 == w * p + r;
    var h := (w + 1) / 2;
    var s := n + 2 * p - 1;
    if w % 2 == 1 {
      assert w == 2 * h - 1;
      assert w * p == (2 * h - 1) * p == h * (2 * p) - p;
      assert s == h * (2 * p) + r;
      Quotient(s, 2 * p, h, r);
    } else {
      assert w == 2 * h;
      assert w * p == (2 * h) * p == h * (2 * p);
      assert s == h * (2 * p) + (p + r);
      Quotient(s, 2 * p, h, p + r);
    }
  }

  lemma Quotient(s: nat, d: nat, q: nat, r: nat)
    requires d > 0 && s == q * d + r && r < d
    ensures s / d == q
    ensures s % d == r
  {
    var q' := s / d;
    assert s == q' * d + s % d;
    if q' < q {
      assert (q' + 1) * d <= q * d by { MulMonotone(q' + 1, q, d); }
    } else if q' > q {
      assert (q + 1) * d <= q' * d by { MulMonotone(q + 1, q', d); }
    }
  }

  /** ceil(log2 n): the least d with n <= 2^d. */
  lemma {:induction false} DepthIsCeilLog2(n: nat)
    ensures n <= Pow2(Depth(n))
    ensures n > 1 ==> Pow2(Depth(n) - 1) < n
  {
    if n > 1 {
      var m := Half(n + 1);
      DepthIsCeilLog2(m);
      if m > 1 {
        assert Pow2(Depth(n) - 1) == Pow2(Depth(m) - 1) + Pow2(Depth(m) - 1);
      } else {
        assert Depth(n) == 1;
      }
    }
  }

  lemma {:induction false} DepthBound(n: nat, d: nat)
    requires n <= Pow2(d)
    ensures Depth(n) <= d
    decreases n
  {
    if n > 1 {
      DepthBound(Half(n + 1), d - 1);
    }
  }

  /** While a level above is still needed, one row up exists and the root sits at level Depth. */
  lemma {:induction false} RowShift(hash: Hasher, leaves: seq<Hash>, level: nat)
    ensures Row(hash, leaves, level + 1) == Row(hash, Above(hash, leaves), level)
  {
    if level > 0 {
      RowShift(hash, leaves, level - 1);
    }
  }

  lemma {:induction false} RowLength(hash: Hasher, leaves: seq<Hash>, level: nat)
    requires level <= Depth(|leaves|)
    ensures Depth(|Row(hash, leaves, level)|) == Depth(|leaves|) - level
    ensures leaves != [] ==> Row(hash, leaves, level) != []
  {
    if level > 0 {
      RowLength(hash, leaves, level - 1);
      AboveLength(hash, Row(hash, leaves, level - 1));
    }
  }

  lemma AboveLength(hash: Hasher, row: seq<Hash>)
    requires Depth(|row|) > 0
    ensures |row| > 1 && Above(hash, row) != []
    ensures Depth(|Above(hash, row)|) == Depth(|row|) - 1
  {
  }

  /** Every level but the leaves is hashed from a row of at least two nodes. */
  lemma RowBelow(hash: Hasher, leaves: seq<Hash>, level: nat) returns (below: seq<Hash>)
    requires 0 < level <= Depth(|leaves|)
    ensures below == Row(hash, leaves, level - 1)
    ensures Row(hash, leaves, level) == Above(hash, below) && |below| > 1
  {
    RowLength(hash, leaves, level - 1);
    below := Row(hash, leaves, level - 1);
  }

  lemma RootAbove(hash: Hasher, row: seq<Hash>)
    requires |row| > 1
    ensures Above(hash, row) != [] && Root(hash, Above(hash, row)) == Root(hash, row)
  {
  }

  lemma {:induction false} RootOfRow(hash: Hasher, leaves: seq<Hash>, level: nat)
    requires leaves != [] && level <= Depth(|leaves|)
    ensures Row(hash, leaves, level) != []
    ensures Root(hash, Row(hash, leaves, level)) == Root(hash, leaves)
  {
    if level > 0 {
      RootOfRow(hash, leaves, level - 1);
      var below := RowBelow(hash, leaves, level);
      RootAbove(hash, below);
    }
  }

  /** `row` is level `level` of the reference tree. */
  ghost predicate IsLevel(hash: Hasher, leaves: seq<Hash>, level: nat, row: seq<Hash>) {
    && |row| == Width(|leaves|, level)
    && forall i {:trigger row[i]} :: 0 <= i < |row| ==> row[i] == NodeAt(hash, leaves, level, i)
  }

  lemma PaddedNode(hash: Hasher, leaves: seq<Hash>, level: nat, row: seq<Hash>, i: nat)
    requires IsLevel(hash, leaves, level, row) && i < |Pad(row)|
    ensures Pad(row)[i] == NodeAt(hash, leaves, level, i)
  {
    if i < |row| {
      assert Pad(row)[i] == row[i];
    }
  }

  lemma LevelAbove(hash: Hasher, leaves: seq<Hash>, level: nat, row: seq<Hash>)
    requires IsLevel(hash, leaves, level, row) && |row| > 1
    ensures IsLevel(hash, leaves, level + 1, Above(hash, row))
  {
    var above := Above(hash, row);
    forall i | 0 <= i < |above|
      ensures above[i] == NodeAt(hash, leaves, level + 1, i)
    {
      ParentAt(hash, Pad(row), i);
      PaddedNode(hash, leaves, level, row, i + i);
      PaddedNode(hash, leaves, level, row, i + i + 1);
    }
  }

  /** Row by row, the padded lists agree with the tree drawn from the root. */
  lemma {:induction false} RowIsNodeAt(hash: Hasher, leaves: seq<Hash>, level: nat)
    requires level <= Depth(|leaves|)
    ensures IsLevel(hash, leaves, level, Row(hash, leaves, level))
  {
    if level > 0 {
      RowIsNodeAt(hash, leaves, level - 1);
      RowLength(hash, leaves, level - 1);
      LevelAbove(hash, leaves, level - 1, Row(hash, leaves, level - 1));
    }
  }

  /** The root computed list by list is the top node of the reference tree. */
  lemma RootIsTopNode(hash: Hasher, leaves: seq<Hash>)
    requires leaves != []
    ensures Root(hash, leaves) == NodeAt(hash, leaves, Depth(|leaves|), 0)
  {
    var d := Depth(|leaves|);
    RootOfRow(hash, leaves, d);
    RowLength(hash, leaves, d);
    RowIsNodeAt(hash, leaves, d);
    assert Row(hash, leaves, d)[0] == NodeAt(hash, leaves, d, 0);
  }

  lemma PadTwice(row: seq<Hash>)
    ensures Pad(Pad(row)) == Pad(row)
  {
  }

  /** Computing the root again over the padded leaf row gives the same root. */
  lemma RootOfPadded(hash: Hasher, leaves: seq<Hash>)
    requires leaves != []
    ensures Root(hash, Pad(leaves)) == Root(hash, leaves)
  {
    PadTwice(leaves);
    if |leaves| > 1 {
      assert Above(hash, Pad(leaves)) == Above(hash, leaves);
    }
  }

  // ---- Completeness ----------------------------------------------------------------------

  lemma StepReachesParent(hash: Hasher, row: seq<Hash>, index: nat)
    requires index < |row| && !Odd(|row|)
    ensures Sibling(index) < |row| && Half(index) < Half(|row|)
    ensures StepInput(index, row[index], row[Sibling(index)]) == PairInput(row, Half(index))
    ensures Parents(hash, row)[Half(index)] == hash(PairInput(row, Half(index)))
  {
    ParentAt(hash, row, Half(index));
  }

  /** Every leaf, climbed along its own path, reaches the root. */
  lemma {:induction false} PathReachesRoot(hash: Hasher, leaves: seq<Hash>, index: nat)
    requires leaves != [] && index < |Pad(leaves)|
    ensures Climb(hash, index, Pad(leaves)[index], PathOf(hash, leaves, index)) == Root(hash, leaves)
    decreases |leaves|
  {
    if |leaves| > 1 {
      var padded := Pad(leaves);
      var above := Above(hash, leaves);
      var path := PathOf(hash, leaves, index);
      assert path[0] == padded[Sibling(index)];
      assert path[1..] == PathOf(hash, above, Half(index));
      StepReachesParent(hash, padded, index);
      PathReachesRoot(hash, above, Half(index));
      assert Pad(above)[Half(index)] == above[Half(index)];
    }
  }

  /** Completeness stated on a batch of requests. */
  lemma BatchPathVerifies(hash: Hasher, batch: seq<Bytes>, index: nat)
    requires index < |batch|
    ensures var row := LeafRow(hash, batch);
            Climb(hash, index, Leaf(hash, batch[index]), PathOf(hash, row, index)) == Root(hash, row)
  {
    PathReachesRoot(hash, LeafRow(hash, batch), index);
  }
}
