/** The mutable, level-by-level Merkle tree of the server, refined to `MerkleSpec`. */
module MerkleTrees {
  import opened Primitives
  import opened MerkleSpec
  import opened MerklePaths
  import opened MerkleReference

  type Levels = levels: seq<seq<Hash>> | levels != [] witness [[]]

  // ---- Level counts ------------------------------------------------------------------------

  predicate IsPowerOfTwo(n: nat) {
    n == 1 || (n > 1 && !Odd(n) && IsPowerOfTwo(Half(n)))
  }

  function TrailingZeros(n: nat): nat
    requires n > 0
  {
    if Odd(n) then 0 else TrailingZeros(Half(n)) + 1
  }

  function ILog2(n: nat): nat
    requires n > 0
  {
    if n == 1 then 0 else ILog2(Half(n)) + 1
  }

  /** Number of levels that `reserve` prepares for n leaves. */
  function MaxLevels(n: nat): nat
    requires n > 0
  {
    if IsPowerOfTwo(n) then TrailingZeros(n) + 1 else ILog2(n - 1) + 2
  }

  lemma {:induction false} PowerOfTwoDepth(n: nat)
    requires IsPowerOfTwo(n)
    ensures TrailingZeros(n) == Depth(n)
  {
    if n > 1 {
      PowerOfTwoDepth(Half(n));
      assert Half(n + 1) == Half(n);
    }
  }

  lemma {:induction false} LogDepth(n: nat)
    requires n > 1
    ensures Depth(n) == ILog2(n - 1) + 1
  {
    if n > 2 {
      var m := Half(n + 1);
      assert Half(n - 1) == m - 1;
      LogDepth(m);
    }
  }

  /** `reserve` prepares exactly the rows that `compute_root` fills: one more than the path depth. */
  lemma ReserveMatchesDepth(n: nat)
    requires n > 0
    ensures MaxLevels(n) == Depth(n) + 1
  {
    if IsPowerOfTwo(n) {
      PowerOfTwoDepth(n);
    } else {
      LogDepth(n);
    }
  }

  // ---- The levels after each operation -----------------------------------------------------

  function Pushed(levels: Levels, leaf: Hash): Levels {
    levels[0 := levels[0] + [leaf]]
  }

  function Cleared(levels: Levels): (r: Levels) {
    seq(|levels|, _ => [])
  }

  function Reserved(levels: Levels, numLeaves: nat): (r: Levels) {
    var target := if numLeaves == 0 then 0 else MaxLevels(numLeaves);
    if |levels| < target then levels + seq(target - |levels|, _ => []) else levels
  }

  /** One round: the row below is padded in place and hashed into `level`, which is added if missing. */
  function Raised(hash: Hasher, levels: Levels, level: nat): Levels
    requires 0 < level <= |levels|
  {
    var grown := if level == |levels| then levels + [[]] else levels;
    grown[level - 1 := Pad(levels[level - 1])][level := Above(hash, levels[level - 1])]
  }

  /** All rounds from `level` up to the root. */
  function RaisedAll(hash: Hasher, levels: Levels, level: nat): Levels
    requires level < |levels|
    decreases |levels[level]|
  {
    if |levels[level]| <= 1 then levels else RaisedAll(hash, Raised(hash, levels, level + 1), level + 1)
  }

  lemma {:induction false} RaisedAllBuilds(hash: Hasher, leaves: seq<Hash>, levels: Levels, level: nat)
    requires level <= Depth(|leaves|) && level < |levels|
    requires levels[level] == Row(hash, leaves, level)
    requires forall k {:trigger levels[k]} :: 0 <= k < level ==> levels[k] == Pad(Row(hash, leaves, k))
    ensures Built(hash, leaves, RaisedAll(hash, levels, level))
    decreases |levels[level]|
  {
    RowLength(hash, leaves, level);
    if |levels[level]| > 1 {
      var next := Raised(hash, levels, level + 1);
      assert Row(hash, leaves, level + 1) == Above(hash, Row(hash, leaves, level));
      forall k {:trigger next[k]} | 0 <= k < level + 1
        ensures next[k] == Pad(Row(hash, leaves, k))
      {
        if k < level {
          assert next[k] == levels[k];
        }
      }
      RaisedAllBuilds(hash, leaves, next, level + 1);
    }
  }

  lemma TwoToThe32()
    ensures Pow2(32) == 0x1_0000_0000
  {
    assert Pow2(8) == 0x100;
    assert Pow2(16) == 0x1_0000;
    assert Pow2(24) == 0x100_0000;
  }

  /** Rows below the root are padded, the root row holds the root, rows above it stay as they were. */
  ghost predicate Built(hash: Hasher, leaves: seq<Hash>, levels: Levels) {
    var depth := Depth(|leaves|);
    && |levels| > depth
    && (forall k {:trigger levels[k]} :: 0 <= k <= depth ==> levels[k] == Pad(Row(hash, leaves, k)))
  }

  lemma BuiltAtLeaves(hash: Hasher, leaves: seq<Hash>, levels: Levels)
    requires Built(hash, leaves, levels)
    ensures levels[0] == Pad(leaves)
  {
    assert Row(hash, leaves, 0) == leaves;
  }

  /** One turn of the path loop moves one element from the remaining path to the collected one. */
  lemma PathStep(hash: Hasher, leaves: seq<Hash>, level: nat, i: nat)
    requires level < Depth(|leaves|) && i < |Pad(Row(hash, leaves, level))|
    ensures var row := Row(hash, leaves, level);
            var above := Row(hash, leaves, level + 1);
            && Sibling(i) < |Pad(row)| && Half(i) < |Pad(above)|
            && PathOf(hash, row, i) == [Pad(row)[Sibling(i)]] + PathOf(hash, above, Half(i))
  {
    RowLength(hash, leaves, level);
    var row := Row(hash, leaves, level);
    assert |row| > 1;
    assert Row(hash, leaves, level + 1) == Above(hash, row);
    StepReachesParent(hash, Pad(row), i);
  }

  lemma Reassociate<T>(front: seq<T>, x: T, back: seq<T>)
    ensures (front + [x]) + back == front + ([x] + back)
  {
  }

  lemma DepthFits(n: nat)
    requires n <= 0x1_0000_0000
    ensures Depth(n) <= 32
  {
    TwoToThe32();
    DepthBound(n, 32);
  }

  /** On a level of a built tree, a sibling is missing exactly at the root. */
  lemma LevelOfBuilt(hash: Hasher, leaves: seq<Hash>, levels: Levels, level: nat, i: nat)
    requires Built(hash, leaves, levels) && level <= Depth(|leaves|) && i < |Pad(Row(hash, leaves, level))|
    ensures level < |levels| && levels[level] == Pad(Row(hash, leaves, level))
    ensures Sibling(i) < |levels[level]| ==> level < Depth(|leaves|)
    ensures Sibling(i) >= |levels[level]| ==> |Row(hash, leaves, level)| == 1
  {
    RowLength(hash, leaves, level);
    SiblingMissing(Row(hash, leaves, level), i);
  }

  /** The climb has come to node i of a level, and `rest` of the path is still to be collected. */
  ghost predicate Climbing(hash: Hasher, leaves: seq<Hash>, level: nat, i: nat, rest: seq<Hash>) {
    var row := Row(hash, leaves, level);
    level <= Depth(|leaves|) && i < |Pad(row)| && rest == PathOf(hash, row, i)
  }

  /** No built row in reach of the climb is empty. */
  lemma RootRowIsEmpty(hash: Hasher, leaves: seq<Hash>, levels: Levels, level: nat, i: nat, rest: seq<Hash>)
    requires Built(hash, leaves, levels) && Climbing(hash, leaves, level, i, rest)
    ensures levels[level] == [] ==> rest == []
  {
    LevelOfBuilt(hash, leaves, levels, level, i);
  }

  /** No sibling is found exactly when the row is the root row. */
  lemma SiblingMissing(row: seq<Hash>, i: nat)
    requires i < |Pad(row)|
    ensures Sibling(i) >= |Pad(row)| <==> |row| == 1
  {
  }

  class MerkleTree {
    var levels: Levels
    const digest: Bytes -> Bytes32

    ghost function Hash(): Hasher {
      TreeHasher(digest)
    }

    constructor (digest: Bytes -> Bytes32)
      ensures levels == [[]] && this.digest == digest
    {
      levels := [[]];
      this.digest := digest;
    }

    method PushLeaf(data: Bytes)
      modifies this
      ensures levels == Pushed(old(levels), Leaf(Hash(), data))
      ensures Plain(levels[0]) == Plain(old(levels[0])) + [digest([0x00] + data)]
    {
      var hash := HashLeaf(data);
      levels := levels[0 := levels[0] + [hash]];
    }

    method Reserve(numLeaves: nat)
      modifies this
      ensures levels == Reserved(old(levels), numLeaves)
    {
      if numLeaves == 0 {
        return;
      }
      var maxLevels := MaxLevels(numLeaves);
      ghost var before := levels;
      var level := 0;
      while level < maxLevels
        invariant 0 <= level <= maxLevels
        invariant levels == if |before| < level then before + seq(level - |before|, _ => []) else before
      {
        if level >= |levels| {
          levels := levels + [[]];
        }
        level := level + 1;
      }
    }

    method ComputeRoot() returns (root: Hash)
      requires levels[0] != []
      modifies this
      ensures root == Root(Hash(), old(levels[0]))
      ensures root.bytes == PlainRoot(digest, Plain(old(levels[0])))
      ensures levels == RaisedAll(Hash(), old(levels), 0)
      ensures Built(Hash(), old(levels[0]), levels)
    {
      ghost var h, leaves := Hash(), levels[0];
      ghost var goal := RaisedAll(h, levels, 0);
      RaisedAllBuilds(h, leaves, levels, 0);
      RootIsPlain(digest, leaves);
      var level := 0;
      var nodeCount := |levels[0]|;
      while nodeCount > 1
        invariant level < |levels| && nodeCount == |levels[level]|
        invariant RaisedAll(h, levels, level) == goal
        invariant nodeCount > 0 && Root(h, levels[level]) == Root(h, leaves)
      {
        RootAbove(h, levels[level]);
        level := level + 1;
        nodeCount := BuildLevel(level, nodeCount);
      }
      root := levels[level][0];
    }

    /** One round of the outer loop of `compute_root`: pad the row below, then hash it. */
    method BuildLevel(level: nat, below: nat) returns (nodeCount: nat)
      requires 0 < level <= |levels| && below == |levels[level - 1]| > 1
      modifies this
      ensures levels == Raised(Hash(), old(levels), level) && nodeCount == |levels[level]|
    {
      ghost var before, row := levels, levels[level - 1];
      if |levels| < level + 1 {
        levels := levels + [[]];
      }
      levels := levels[level := []];
      nodeCount := below;
      HalfIsQuotient(nodeCount);
      if nodeCount % 2 != 0 {
        levels := levels[level - 1 := levels[level - 1] + [ZERO_NODE]];
        nodeCount := nodeCount + 1;
      }
      assert levels[level - 1] == Pad(row) && nodeCount == |Pad(row)|;
      HalfIsQuotient(nodeCount);
      nodeCount := nodeCount / 2;
      HashRow(level, nodeCount);
      assert levels == Raised(Hash(), before, level);
    }

    /** The inner loop of `compute_root`: one hash per pair of nodes below. */
    method HashRow(level: nat, nodeCount: nat)
      requires 0 < level < |levels| && levels[level] == []
      requires nodeCount == Half(|levels[level - 1]|)
      modifies this
      ensures levels == old(levels)[level := Parents(Hash(), old(levels)[level - 1])]
    {
      ghost var before := levels;
      ghost var h, below := Hash(), levels[level - 1];
      for i := 0 to nodeCount
        invariant levels == before[level := Parents(h, below)[..i]]
      {
        ParentAt(h, below, i);
        var hash := HashNodes(levels[level - 1][i + i], levels[level - 1][i + i + 1]);
        assert Parents(h, below)[..i + 1] == Parents(h, below)[..i] + [hash];
        levels := levels[level := levels[level] + [hash]];
      }
      assert Parents(h, below)[..nodeCount] == Parents(h, below);
    }

    method GetPathsTo(index: nat, path: MerklePath, ghost leaves: seq<Hash>)
      requires Built(Hash(), leaves, levels) && index < |levels[0]| && |leaves| <= 0x1_0000_0000
      requires path.Valid() && path.IsEmpty()
      modifies path`numPaths, path.data
      ensures path.Valid()
      ensures index < |Pad(leaves)| && path.Elements() == PathOf(Hash(), leaves, index)
    {
      BuiltAtLeaves(Hash(), leaves, levels);
      DepthFits(|leaves|);
      CollectPath(index, path, leaves, PathOf(Hash(), leaves, index));
    }

    /** The path loop: what is collected and what is still to come make up the whole path. */
    method CollectPath(index: nat, path: MerklePath, ghost leaves: seq<Hash>, ghost whole: seq<Hash>)
      requires Built(Hash(), leaves, levels) && Depth(|leaves|) <= MAX_PATHS && Climbing(Hash(), leaves, 0, index, whole)
      requires path.Valid() && path.numPaths == 0
      modifies path`numPaths, path.data
      ensures path.Valid() && path.Elements() == whole
    {
      ghost var rest := whole;
      var level: nat, i: nat := 0, index;
      while levels[level] != []
        invariant path.Valid() && path.numPaths == level && level < |levels|
        invariant Climbing(Hash(), leaves, level, i, rest)
        invariant whole == path.Elements() + rest
        decreases Depth(|leaves|) - level
      {
        var collected;
        collected, i, rest := CollectSibling(level, i, path, leaves, rest);
        if !collected {
          break;
        }
        level := level + 1;
      }
      RootRowIsEmpty(Hash(), leaves, levels, level, i, rest);
    }

    /** One turn of the path loop: the sibling is collected, unless this is the root row. */
    method CollectSibling(level: nat, i: nat, path: MerklePath, ghost leaves: seq<Hash>, ghost rest: seq<Hash>)
      returns (collected: bool, parent: nat, ghost later: seq<Hash>)
      requires Built(Hash(), leaves, levels) && Depth(|leaves|) <= MAX_PATHS && Climbing(Hash(), leaves, level, i, rest)
      requires path.Valid() && path.numPaths == level
      modifies path`numPaths, path.data
      ensures path.Valid() && path.Elements() + later == old(path.Elements()) + rest
      ensures if collected then path.numPaths == level + 1 < |levels| && Climbing(Hash(), leaves, level + 1, parent, later)
              else path.numPaths == level && parent == i && Climbing(Hash(), leaves, level, i, later) && later == []
    {
      LevelOfBuilt(Hash(), leaves, levels, level, i);
      var sibling := SiblingOf(i);
      if sibling >= |levels[level]| {
        return false, i, rest;
      }
      ghost var before := path.Elements();
      PathStep(Hash(), leaves, level, i);
      path.PushElement(levels[level][sibling]);
      collected, parent, later := true, i / 2, rest[1..];
      HalfIsQuotient(i);
      Reassociate(before, levels[level][sibling], later);
    }

    static method SiblingOf(i: nat) returns (sibling: nat)
      ensures sibling == Sibling(i)
    {
      HalfIsQuotient(i);
      sibling := if i % 2 == 0 then i + 1 else i - 1;
    }

    method Clear()
      modifies this
      ensures levels == Cleared(old(levels))
    {
      levels := seq(|levels|, _ => []);
    }

    predicate IsEmpty()
      reads this
    {
      levels[0] == []
    }

    method HashLeaf(leaf: Bytes) returns (hash: Hash)
      ensures hash == Leaf(Hash(), leaf) && hash.bytes == digest([0x00] + leaf)
    {
      LeafIsPlain(digest, leaf);
      hash := MerkleSpec.Hash(digest(LeafInput(leaf).Octets()));
    }

    method HashNodes(first: Hash, second: Hash) returns (hash: Hash)
      ensures hash == Node(Hash(), first, second) && hash.bytes == digest([0x01] + first.bytes + second.bytes)
    {
      NodeIsPlain(digest, first, second);
      hash := MerkleSpec.Hash(digest(NodeInput(first, second).Octets()));
    }

    method RootFromPaths(index: nat, initData: Bytes, paths: Path) returns (hash: Hash)
      ensures hash == Climb(Hash(), index, Leaf(Hash(), initData), paths)
      ensures hash.bytes == PlainClimb(digest, index, digest([0x00] + initData), Plain(paths))
    {
      hash := HashLeaf(initData);
      var i := index;
      ghost var result := Climb(Hash(), index, hash, paths);
      ClimbIsPlain(digest, index, hash, paths);
      for k := 0 to |paths|
        invariant Climb(Hash(), i, hash, paths[k..]) == result
      {
        HalfIsQuotient(i);
        if i % 2 == 0 {
          hash := HashNodes(hash, paths[k]);
        } else {
          hash := HashNodes(paths[k], hash);
        }
        assert paths[k..][1..] == paths[k + 1..];
        i := i / 2;
      }
    }
  }
}
