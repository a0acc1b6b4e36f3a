/**
  Binding of a computed root, with no assumption on the hash.

  Each theorem names the finite set of byte strings that the tree builder and the path checker
  actually hashed, and concludes that the proof binds unless two different members of that set
  collide or one of them hashes to the all-zero padding node.
*/
module MerkleBinding {
  import opened Primitives
  import opened MerkleSpec

  ghost predicate Collision(hash: Hasher, a: HashInput, b: HashInput) {
    a != b && hash(a) == hash(b)
  }

  ghost predicate ZeroPreimage(hash: Hasher, a: HashInput) {
    hash(a) == ZERO_NODE
  }

  ghost predicate Broken(hash: Hasher, inputs: set<HashInput>) {
    || (exists a, b {:trigger Collision(hash, a, b)} :: a in inputs && b in inputs && Collision(hash, a, b))
    || (exists a {:trigger ZeroPreimage(hash, a)} :: a in inputs && ZeroPreimage(hash, a))
  }

  /** What hashing one row into the next feeds to the hash. */
  ghost function RowInputs(row: seq<Hash>): set<HashInput> {
    set i | 0 <= i < Half(|row|) :: PairInput(row, i)
  }

  /** Everything hashed between a row and the root. */
  ghost function NodeInputs(hash: Hasher, row: seq<Hash>): set<HashInput>
    decreases |row|
  {
    if |row| <= 1 then {} else RowInputs(Pad(row)) + NodeInputs(hash, Above(hash, row))
  }

  /** `inputs` holds everything hashed between a row and the root. */
  ghost predicate Covered(hash: Hasher, row: seq<Hash>, inputs: set<HashInput>)
    decreases |row|
  {
    |row| <= 1 || (RowInputs(Pad(row)) <= inputs && Covered(hash, Above(hash, row), inputs))
  }

  lemma {:induction false} NodeInputsCover(hash: Hasher, row: seq<Hash>, inputs: set<HashInput>)
    requires NodeInputs(hash, row) <= inputs
    ensures Covered(hash, row, inputs)
    decreases |row|
  {
    if |row| > 1 {
      NodeInputsCover(hash, Above(hash, row), inputs);
    }
  }

  /** Everything hashed while the root of a batch is computed. */
  ghost function TreeInputs(hash: Hasher, batch: seq<Bytes>): set<HashInput> {
    (set i | 0 <= i < |batch| :: LeafInput(batch[i])) + NodeInputs(hash, LeafRow(hash, batch))
  }

  ghost function ClimbInputs(hash: Hasher, index: nat, node: Hash, path: seq<Hash>): set<HashInput>
    decreases |path|
  {
    if path == [] then {}
    else
      var input := StepInput(index, node, path[0]);
      {input} + ClimbInputs(hash, Half(index), hash(input), path[1..])
  }

  /** Everything hashed while a client checks a path. */
  ghost function CheckInputs(hash: Hasher, index: nat, data: Bytes, path: seq<Hash>): set<HashInput> {
    {LeafInput(data)} + ClimbInputs(hash, index, Leaf(hash, data), path)
  }

  /** A node above the leaf row is the hash of something the builder hashed. */
  lemma AboveIsHashed(hash: Hasher, row: seq<Hash>, i: nat, inputs: set<HashInput>)
    requires Covered(hash, row, inputs) && i < |Above(hash, row)|
    ensures PairInput(Pad(row), i) in inputs && Above(hash, row)[i] == hash(PairInput(Pad(row), i))
  {
    ParentAt(hash, Pad(row), i);
    assert PairInput(Pad(row), i) in RowInputs(Pad(row));
  }

  /** One step of an opening: a node equal to the parent at j' was itself the matching child. */
  lemma OpenStep(hash: Hasher, row: seq<Hash>, index: nat, node: Hash, sibling: Hash, j: nat, inputs: set<HashInput>)
    requires |row| > 1 && j < |Above(hash, row)|
    requires hash(StepInput(index, node, sibling)) == Above(hash, row)[j]
    requires Covered(hash, row, inputs) && StepInput(index, node, sibling) in inputs
    ensures Broken(hash, inputs) || node == Pad(row)[Child(j, index)]
  {
    AboveIsHashed(hash, row, j, inputs);
    var x := StepInput(index, node, sibling);
    if x != PairInput(Pad(row), j) {
      assert Collision(hash, x, PairInput(Pad(row), j));
    }
  }

  /** A path of the right length opens a row at the position given by the low bits of the index. */
  lemma {:induction false} Opening(hash: Hasher, row: seq<Hash>, index: nat, node: Hash, path: seq<Hash>, inputs: set<HashInput>)
    requires row != [] && |path| == Depth(|row|)
    requires Climb(hash, index, node, path) == Root(hash, row)
    requires Covered(hash, row, inputs) && ClimbInputs(hash, index, node, path) <= inputs
    ensures var j := LowBits(index, |path|);
            Broken(hash, inputs) || (j < |Pad(row)| && node == Pad(row)[j])
    decreases |row|
  {
    if |row| > 1 {
      var above := Above(hash, row);
      var x := StepInput(index, node, path[0]);
      Opening(hash, above, Half(index), hash(x), path[1..], inputs);
      var j := LowBits(Half(index), |path| - 1);
      if j < |above| && hash(x) == above[j] {
        OpenStep(hash, row, index, node, path[0], j, inputs);
      } else if hash(x) == ZERO_NODE {
        assert ZeroPreimage(hash, x);
      }
    }
  }

  /** Climbing in two stages; a non-empty first stage ends in something that was hashed. */
  lemma {:induction false} ClimbSplit(hash: Hasher, index: nat, node: Hash, path: seq<Hash>, k: nat) returns (last: HashInput)
    requires k <= |path|
    ensures var middle := Climb(hash, index, node, path[..k]);
            && Climb(hash, index, node, path) == Climb(hash, Shift(index, k), middle, path[k..])
            && ClimbInputs(hash, Shift(index, k), middle, path[k..]) <= ClimbInputs(hash, index, node, path)
            && (k > 0 ==> last in ClimbInputs(hash, index, node, path) && middle == hash(last))
    ensures k > 0 ==> last.NodeInput?
    decreases k
  {
    if k == 0 {
      assert path[0..] == path;
      last := LeafInput([]);
    } else {
      var x := StepInput(index, node, path[0]);
      last := ClimbSplit(hash, Half(index), hash(x), path[1..], k - 1);
      assert path[1..][..k - 1] == path[..k][1..];
      assert path[1..][k - 1..] == path[k..];
      if k == 1 {
        last := x;
      }
    }
  }

  lemma {:induction false} RowCovered(hash: Hasher, row: seq<Hash>, level: nat, inputs: set<HashInput>)
    requires level <= Depth(|row|) && Covered(hash, row, inputs)
    ensures Covered(hash, Row(hash, row, level), inputs)
  {
    if level > 0 {
      RowCovered(hash, row, level - 1, inputs);
      var below := RowBelow(hash, row, level);
    }
  }

  lemma LeafIsNoInnerNode(hash: Hasher, data: Bytes, row: seq<Hash>, j: nat, inputs: set<HashInput>)
    requires Covered(hash, row, inputs) && LeafInput(data) in inputs
    ensures var above := Above(hash, row);
            j < |Pad(above)| && Leaf(hash, data) == Pad(above)[j] ==> Broken(hash, inputs)
  {
    var above := Above(hash, row);
    if j < |above| && Leaf(hash, data) == above[j] {
      AboveIsHashed(hash, row, j, inputs);
      assert Collision(hash, LeafInput(data), PairInput(Pad(row), j));
    } else if Leaf(hash, data) == ZERO_NODE {
      assert ZeroPreimage(hash, LeafInput(data));
    }
  }

  lemma SameLeaf(hash: Hasher, a: Bytes, b: Bytes, inputs: set<HashInput>)
    requires LeafInput(a) in inputs && LeafInput(b) in inputs
    ensures Leaf(hash, a) == Leaf(hash, b) ==> a == b || Broken(hash, inputs)
  {
    if Leaf(hash, a) == Leaf(hash, b) && a != b {
      assert Collision(hash, LeafInput(a), LeafInput(b));
    }
  }

  /** The row that lies `height` levels below the root, and the one it was hashed from. */
  lemma InnerRow(hash: Hasher, leaves: seq<Hash>, height: nat, inputs: set<HashInput>)
    returns (row: seq<Hash>, below: seq<Hash>)
    requires leaves != [] && height < Depth(|leaves|) && Covered(hash, leaves, inputs)
    ensures row != [] && row == Above(hash, below) && Depth(|row|) == height
    ensures Root(hash, row) == Root(hash, leaves)
    ensures Covered(hash, row, inputs) && Covered(hash, below, inputs)
  {
    var level := Depth(|leaves|) - height;
    below := RowBelow(hash, leaves, level);
    row := Row(hash, leaves, level);
    RowLength(hash, leaves, level);
    RootOfRow(hash, leaves, level);
    RowCovered(hash, leaves, level, inputs);
    RowCovered(hash, leaves, level - 1, inputs);
  }

  /** A path shorter than the tree would make a leaf pass for an inner node. */
  lemma TooShort(hash: Hasher, batch: seq<Bytes>, index: nat, data: Bytes, path: seq<Hash>, inputs: set<HashInput>)
    requires batch != [] && |path| < Depth(|batch|)
    requires Climb(hash, index, Leaf(hash, data), path) == Root(hash, LeafRow(hash, batch))
    requires TreeInputs(hash, batch) + CheckInputs(hash, index, data, path) <= inputs
    ensures Broken(hash, inputs)
  {
    var leaves := LeafRow(hash, batch);
    NodeInputsCover(hash, leaves, inputs);
    var row, below := InnerRow(hash, leaves, |path|, inputs);
    OpeningInner(hash, row, below, index, data, path, inputs);
  }

  lemma OpeningInner(hash: Hasher, row: seq<Hash>, below: seq<Hash>, index: nat, data: Bytes, path: seq<Hash>, inputs: set<HashInput>)
    requires row != [] && row == Above(hash, below) && |path| == Depth(|row|)
    requires Climb(hash, index, Leaf(hash, data), path) == Root(hash, row)
    requires Covered(hash, row, inputs) && Covered(hash, below, inputs)
    requires CheckInputs(hash, index, data, path) <= inputs
    ensures Broken(hash, inputs)
  {
    Opening(hash, row, index, Leaf(hash, data), path, inputs);
    LeafIsNoInnerNode(hash, data, below, LowBits(index, |path|), inputs);
  }

  /** A path longer than the tree would make an inner node pass for a leaf. */
  lemma TooLong(hash: Hasher, batch: seq<Bytes>, index: nat, data: Bytes, path: seq<Hash>, inputs: set<HashInput>)
    requires batch != [] && |path| > Depth(|batch|)
    requires Climb(hash, index, Leaf(hash, data), path) == Root(hash, LeafRow(hash, batch))
    requires TreeInputs(hash, batch) + CheckInputs(hash, index, data, path) <= inputs
    ensures Broken(hash, inputs)
  {
    var k := |path| - Depth(|batch|);
    var last := ClimbSplit(hash, index, Leaf(hash, data), path, k);
    NodeIsNoLeaf(hash, batch, Shift(index, k), last, path[k..], inputs);
  }

  lemma NodeIsNoLeaf(hash: Hasher, batch: seq<Bytes>, index: nat, last: HashInput, path: seq<Hash>, inputs: set<HashInput>)
    requires batch != [] && |path| == Depth(|batch|) && last.NodeInput?
    requires Climb(hash, index, hash(last), path) == Root(hash, LeafRow(hash, batch))
    requires TreeInputs(hash, batch) + ClimbInputs(hash, index, hash(last), path) <= inputs && last in inputs
    ensures Broken(hash, inputs)
  {
    var leaves := LeafRow(hash, batch);
    NodeInputsCover(hash, leaves, inputs);
    Opening(hash, leaves, index, hash(last), path, inputs);
    var j := LowBits(index, |path|);
    if j < |leaves| && hash(last) == leaves[j] {
      assert LeafInput(batch[j]) in TreeInputs(hash, batch);
      assert Collision(hash, LeafInput(batch[j]), last);
    } else if hash(last) == ZERO_NODE {
      assert ZeroPreimage(hash, last);
    }
  }

  /**
    Binding. Whatever index, data and path a client is shown, if they climb to the root of a batch
    then the path has the depth of the tree and the batch holds exactly this data at the position
    given by the low bits of the index, or the hash is broken on what was hashed.
  */
  lemma ProofBindsLeaf(hash: Hasher, batch: seq<Bytes>, index: nat, data: Bytes, path: seq<Hash>)
    requires batch != []
    requires Climb(hash, index, Leaf(hash, data), path) == Root(hash, LeafRow(hash, batch))
    ensures var j := index % Pow2(|path|);
            || (|path| == Depth(|batch|) && j < |batch| && batch[j] == data)
            || Broken(hash, TreeInputs(hash, batch) + CheckInputs(hash, index, data, path))
  {
    var inputs := TreeInputs(hash, batch) + CheckInputs(hash, index, data, path);
    if |path| < Depth(|batch|) {
      TooShort(hash, batch, index, data, path, inputs);
    } else if |path| > Depth(|batch|) {
      TooLong(hash, batch, index, data, path, inputs);
    } else {
      NodeInputsCover(hash, LeafRow(hash, batch), inputs);
      Opening(hash, LeafRow(hash, batch), index, Leaf(hash, data), path, inputs);
      var j := LowBits(index, |path|);
      BitsAreDivision(index, |path|);
      if j < |batch| {
        SameLeaf(hash, batch[j], data, inputs);
      } else if Leaf(hash, data) == ZERO_NODE {
        assert ZeroPreimage(hash, LeafInput(data));
      }
    }
  }

  /** A climb reads nothing of its index but the low bits, one for each element of the path. */
  lemma {:induction false} ClimbReadsLowBits(hash: Hasher, i: nat, j: nat, node: Hash, path: seq<Hash>)
    requires LowBits(i, |path|) == LowBits(j, |path|)
    ensures Climb(hash, i, node, path) == Climb(hash, j, node, path)
    decreases |path|
  {
    if path != [] {
      assert Odd(i) <==> Odd(j);
      ClimbReadsLowBits(hash, Half(i), Half(j), hash(StepInput(i, node, path[0])), path[1..]);
    }
  }

  lemma ShiftedRemainder(index: nat, k: nat, p: nat)
    requires p > 0
    ensures (index + k * p) % p == index % p
  {
    var q, r := index / p, index % p;
    assert index + k * p == (q + k) * p + r;
    Quotient(index + k * p, p, q + k, r);
  }

  /** No more can be bound: indices that differ by a multiple of 2^depth climb to the same hash. */
  lemma IndexBoundModuloDepth(hash: Hasher, index: nat, k: nat, node: Hash, path: seq<Hash>)
    ensures Climb(hash, index + k * Pow2(|path|), node, path) == Climb(hash, index, node, path)
  {
    var p := Pow2(|path|);
    var other := index + k * p;
    BitsAreDivision(index, |path|);
    BitsAreDivision(other, |path|);
    ShiftedRemainder(index, k, p);
    ClimbReadsLowBits(hash, other, index, node, path);
  }

  // ---- Equal roots -----------------------------------------------------------------------

  lemma ParentsEqual(hash: Hasher, a: seq<Hash>, b: seq<Hash>, inputs: set<HashInput>)
    requires !Odd(|a|) && !Odd(|b|) && Parents(hash, a) == Parents(hash, b)
    requires RowInputs(a) + RowInputs(b) <= inputs
    ensures a == b || Broken(hash, inputs)
  {
    assert |Parents(hash, a)| == Half(|a|) && |Parents(hash, b)| == Half(|b|);
    if !Broken(hash, inputs) {
      forall k | 0 <= k < |a|
        ensures a[k] == b[k]
      {
        var i := Half(k);
        var x, y := PairInput(a, i), PairInput(b, i);
        assert x in RowInputs(a) && y in RowInputs(b);
        assert Parents(hash, a)[i] == hash(x) && Parents(hash, b)[i] == hash(y);
        assert !Collision(hash, x, y);
      }
    }
  }

  /** Rows of one depth with one root are equal, unless the hash is broken or a row holds a zero. */
  lemma {:induction false} EqualRootsEqualRows(hash: Hasher, a: seq<Hash>, b: seq<Hash>, inputs: set<HashInput>)
    requires a != [] && b != [] && Depth(|a|) == Depth(|b|)
    requires Root(hash, a) == Root(hash, b)
    requires Covered(hash, a, inputs) && Covered(hash, b, inputs)
    ensures a == b || Broken(hash, inputs) || ZERO_NODE in a || ZERO_NODE in b
    decreases |a|
  {
    if |a| > 1 {
      EqualRootsEqualRows(hash, Above(hash, a), Above(hash, b), inputs);
      ZeroAboveBreaks(hash, a, inputs);
      ZeroAboveBreaks(hash, b, inputs);
      if !Broken(hash, inputs) {
        ParentsEqual(hash, Pad(a), Pad(b), inputs);
        EqualPadding(a, b);
      }
    }
  }

  lemma ZeroAboveBreaks(hash: Hasher, row: seq<Hash>, inputs: set<HashInput>)
    requires Covered(hash, row, inputs)
    ensures ZERO_NODE in Above(hash, row) ==> Broken(hash, inputs)
  {
    if ZERO_NODE in Above(hash, row) {
      var i :| 0 <= i < |Above(hash, row)| && Above(hash, row)[i] == ZERO_NODE;
      AboveIsHashed(hash, row, i, inputs);
      assert ZeroPreimage(hash, PairInput(Pad(row), i));
    }
  }

  lemma EqualPadding(a: seq<Hash>, b: seq<Hash>)
    requires Pad(a) == Pad(b)
    ensures a == b || ZERO_NODE in a || ZERO_NODE in b
  {
    if |a| < |b| {
      assert b[|b| - 1] == ZERO_NODE;
    } else if |b| < |a| {
      assert a[|a| - 1] == ZERO_NODE;
    } else {
      assert a == Pad(a)[..|a|] && b == Pad(b)[..|b|];
    }
  }

  /** Climbing a leaf's own path hashes nothing the builder did not hash. */
  lemma {:induction false} PathInputsWithin(hash: Hasher, row: seq<Hash>, index: nat, inputs: set<HashInput>)
    requires row != [] && index < |Pad(row)| && Covered(hash, row, inputs)
    ensures ClimbInputs(hash, index, Pad(row)[index], PathOf(hash, row, index)) <= inputs
    decreases |row|
  {
    if |row| > 1 {
      var padded, above := Pad(row), Above(hash, row);
      var path := PathOf(hash, row, index);
      assert path[1..] == PathOf(hash, above, Half(index));
      StepReachesParent(hash, padded, index);
      AboveIsHashed(hash, row, Half(index), inputs);
      assert Pad(above)[Half(index)] == above[Half(index)];
      PathInputsWithin(hash, above, Half(index), inputs);
    }
  }

  /** A root commits to the whole batch: its length, its order and every byte of it. */
  lemma RootBindsBatch(hash: Hasher, a: seq<Bytes>, b: seq<Bytes>)
    requires a != [] && b != []
    requires Root(hash, LeafRow(hash, a)) == Root(hash, LeafRow(hash, b))
    ensures a == b || Broken(hash, TreeInputs(hash, a) + TreeInputs(hash, b))
  {
    var inputs := TreeInputs(hash, a) + TreeInputs(hash, b);
    var rowA, rowB := LeafRow(hash, a), LeafRow(hash, b);
    if !Broken(hash, inputs) {
      var path := PathOf(hash, rowB, 0);
      BatchPathVerifies(hash, b, 0);
      NodeInputsCover(hash, rowB, TreeInputs(hash, b));
      PathInputsWithin(hash, rowB, 0, TreeInputs(hash, b));
      assert LeafInput(b[0]) in TreeInputs(hash, b);
      ProofBindsLeaf(hash, a, 0, b[0], path);
      BrokenMonotone(hash, TreeInputs(hash, a) + CheckInputs(hash, 0, b[0], path), inputs);
      assert Depth(|a|) == Depth(|b|);
      NodeInputsCover(hash, rowA, inputs);
      NodeInputsCover(hash, rowB, inputs);
      EqualRootsEqualRows(hash, rowA, rowB, inputs);
      ZeroLeafBreaks(hash, a, inputs);
      ZeroLeafBreaks(hash, b, inputs);
      EqualLeafRows(hash, a, b, inputs);
    }
  }

  lemma BrokenMonotone(hash: Hasher, small: set<HashInput>, large: set<HashInput>)
    requires small <= large
    ensures Broken(hash, small) ==> Broken(hash, large)
  {
  }

  lemma ZeroLeafBreaks(hash: Hasher, batch: seq<Bytes>, inputs: set<HashInput>)
    requires TreeInputs(hash, batch) <= inputs
    ensures ZERO_NODE in LeafRow(hash, batch) ==> Broken(hash, inputs)
  {
    if ZERO_NODE in LeafRow(hash, batch) {
      var i :| 0 <= i < |batch| && LeafRow(hash, batch)[i] == ZERO_NODE;
      assert LeafInput(batch[i]) in TreeInputs(hash, batch);
      assert ZeroPreimage(hash, LeafInput(batch[i]));
    }
  }

  lemma EqualLeafRows(hash: Hasher, a: seq<Bytes>, b: seq<Bytes>, inputs: set<HashInput>)
    requires TreeInputs(hash, a) + TreeInputs(hash, b) <= inputs && !Broken(hash, inputs)
    requires LeafRow(hash, a) == LeafRow(hash, b)
    ensures a == b
  {
    assert |LeafRow(hash, a)| == |a| && |LeafRow(hash, b)| == |b|;
    forall i | 0 <= i < |a|
      ensures a[i] == b[i]
    {
      assert LeafRow(hash, a)[i] == LeafRow(hash, b)[i];
      assert LeafInput(a[i]) in TreeInputs(hash, a) && LeafInput(b[i]) in TreeInputs(hash, b);
      SameLeaf(hash, a[i], b[i], inputs);
    }
  }

  // ---- From tree inputs to the byte strings given to the digest ---------------------------

  lemma OctetsInjective(x: HashInput, y: HashInput)
    requires x.Octets() == y.Octets()
    ensures x == y
  {
    var s, t := x.Octets(), y.Octets();
    assert s[0] == t[0];
    match x
    case LeafInput(data) =>
      assert s[1..] == data && t[1..] == y.data;
    case NodeInput(left, right) =>
      assert s[1..33] == left.bytes && t[1..33] == y.left.bytes;
      assert s[33..] == right.bytes && t[33..] == y.right.bytes;
  }

  ghost predicate DigestCollision(digest: Bytes -> Bytes32, a: Bytes, b: Bytes) {
    a != b && digest(a) == digest(b)
  }

  ghost predicate DigestZero(digest: Bytes -> Bytes32, a: Bytes) {
    digest(a) == Zeros(32)
  }

  ghost predicate InOctets(a: Bytes, inputs: set<HashInput>) {
    exists x :: x in inputs && x.Octets() == a
  }

  /** Two different hashed byte strings share a digest, or one has the all-zero digest. */
  ghost predicate DigestBroken(digest: Bytes -> Bytes32, inputs: set<HashInput>) {
    || (exists a, b {:trigger DigestCollision(digest, a, b)} ::
          InOctets(a, inputs) && InOctets(b, inputs) && DigestCollision(digest, a, b))
    || (exists a {:trigger DigestZero(digest, a)} :: InOctets(a, inputs) && DigestZero(digest, a))
  }

  lemma BrokenTreeBreaksDigest(digest: Bytes -> Bytes32, inputs: set<HashInput>)
    requires Broken(TreeHasher(digest), inputs)
    ensures DigestBroken(digest, inputs)
  {
    var hash := TreeHasher(digest);
    if a, b :| a in inputs && b in inputs && Collision(hash, a, b) {
      if a.Octets() == b.Octets() {
        OctetsInjective(a, b);
      }
      assert DigestCollision(digest, a.Octets(), b.Octets());
    } else {
      var a :| a in inputs && ZeroPreimage(hash, a);
      assert DigestZero(digest, a.Octets());
    }
  }
}
