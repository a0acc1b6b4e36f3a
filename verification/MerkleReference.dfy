/**
  The tree and the client's climb on plain byte strings and the digest alone: what a leaf, a node,
  a root and a proof are, written without the types of `MerkleSpec`. The root and the climb of
  `MerkleSpec` are proved equal to these.
*/
module MerkleReference {
  import opened Primitives
  import opened MerkleSpec

  type Digest = Bytes -> Bytes32

  function PlainLeaf(digest: Digest, data: Bytes): Bytes32 {
    digest([0x00] + data)
  }

  function PlainNode(digest: Digest, first: Bytes32, second: Bytes32): Bytes32 {
    digest([0x01] + first + second)
  }

  /** Neighbours are hashed together; one that is left over is hashed with 32 zero bytes. */
  function PlainUp(digest: Digest, row: seq<Bytes32>): (up: seq<Bytes32>)
    ensures |up| == Half(|row| + 1)
  {
    if row == [] then []
    else if |row| == 1 then [PlainNode(digest, row[0], Zeros(32))]
    else [PlainNode(digest, row[0], row[1])] + PlainUp(digest, row[2..])
  }

  function PlainRoot(digest: Digest, row: seq<Bytes32>): Bytes32
    requires row != []
    decreases |row|
  {
    if |row| == 1 then row[0] else PlainRoot(digest, PlainUp(digest, row))
  }

  /** The current node goes first where the low bit of the index is 0. */
  function PlainClimb(digest: Digest, index: nat, node: Bytes32, path: seq<Bytes32>): Bytes32
    decreases |path|
  {
    if path == [] then node
    else if index % 2 == 0 then PlainClimb(digest, index / 2, PlainNode(digest, node, path[0]), path[1..])
    else PlainClimb(digest, index / 2, PlainNode(digest, path[0], node), path[1..])
  }

  /** Node by node, the neighbour on the way from node `i` up to the root; zero where there is none. */
  function PlainProof(digest: Digest, row: seq<Bytes32>, i: nat): seq<Bytes32>
    requires i < |row|
    decreases |row|
  {
    if |row| == 1 then []
    else
      [if i % 2 == 1 then row[i - 1] else if i + 1 < |row| then row[i + 1] else Zeros(32)] +
      PlainProof(digest, PlainUp(digest, row), i / 2)
  }

  function PlainLeaves(digest: Digest, batch: seq<Bytes>): (row: seq<Bytes32>)
    ensures |row| == |batch|
  {
    seq(|batch|, i requires 0 <= i < |batch| => PlainLeaf(digest, batch[i]))
  }

  /** The bytes of a row of hashes. */
  function Plain(row: seq<Hash>): (bytes: seq<Bytes32>)
    ensures |bytes| == |row|
    ensures forall i :: 0 <= i < |row| ==> bytes[i] == row[i].bytes
  {
    seq(|row|, i requires 0 <= i < |row| => row[i].bytes)
  }

  /** A leaf and a node hash what they should, in the order they should. */
  lemma LeafIsPlain(digest: Digest, data: Bytes)
    ensures Leaf(TreeHasher(digest), data).bytes == PlainLeaf(digest, data)
  {
    assert LeafInput(data).Octets() == [0x00] + data;
  }

  lemma NodeIsPlain(digest: Digest, first: Hash, second: Hash)
    ensures Node(TreeHasher(digest), first, second).bytes == PlainNode(digest, first.bytes, second.bytes)
  {
    assert NodeInput(first, second).Octets() == [0x01] + first.bytes + second.bytes;
  }

  lemma {:induction false} PlainUpAt(digest: Digest, row: seq<Bytes32>, i: nat)
    requires i + i < |row|
    ensures PlainUp(digest, row)[i] == PlainNode(digest, row[i + i], if i + i + 1 < |row| then row[i + i + 1] else Zeros(32))
  {
    if i > 0 {
      PlainUpAt(digest, row[2..], i - 1);
    }
  }

  lemma {:induction false} AboveIsPlain(digest: Digest, row: seq<Hash>)
    requires |row| > 1
    ensures Plain(Above(TreeHasher(digest), row)) == PlainUp(digest, Plain(row))
  {
    var hash := TreeHasher(digest);
    var above, up := Above(hash, row), PlainUp(digest, Plain(row));
    forall i | 0 <= i < |above|
      ensures above[i].bytes == up[i]
    {
      ParentAt(hash, Pad(row), i);
      NodeIsPlain(digest, Pad(row)[i + i], Pad(row)[i + i + 1]);
      PlainUpAt(digest, Plain(row), i);
    }
  }

  /** The root of every row. */
  lemma {:induction false} RootIsPlain(digest: Digest, row: seq<Hash>)
    requires row != []
    ensures Root(TreeHasher(digest), row).bytes == PlainRoot(digest, Plain(row))
    decreases |row|
  {
    if |row| > 1 {
      AboveIsPlain(digest, row);
      RootIsPlain(digest, Above(TreeHasher(digest), row));
    }
  }

  lemma {:induction false} LeavesArePlain(digest: Digest, batch: seq<Bytes>)
    ensures Plain(LeafRow(TreeHasher(digest), batch)) == PlainLeaves(digest, batch)
  {
    var row := LeafRow(TreeHasher(digest), batch);
    forall i | 0 <= i < |batch|
      ensures row[i].bytes == PlainLeaf(digest, batch[i])
    {
      LeafIsPlain(digest, batch[i]);
    }
  }

  /** The root of every batch, from the requests' bytes to the root's. */
  lemma {:induction false} BatchRootIsPlain(digest: Digest, batch: seq<Bytes>)
    requires batch != []
    ensures Root(TreeHasher(digest), LeafRow(TreeHasher(digest), batch)).bytes == PlainRoot(digest, PlainLeaves(digest, batch))
  {
    LeavesArePlain(digest, batch);
    RootIsPlain(digest, LeafRow(TreeHasher(digest), batch));
  }

  /** The neighbour of node i. */
  lemma NeighbourIsPlain(row: seq<Hash>, i: nat)
    requires i < |row| && |row| > 1
    ensures Sibling(i) < |Pad(row)|
    ensures Pad(row)[Sibling(i)].bytes == if i % 2 == 1 then row[i - 1].bytes else if i + 1 < |row| then row[i + 1].bytes else Zeros(32)
  {
    HalfIsQuotient(i);
    HalfIsQuotient(|row|);
  }

  lemma {:induction false} PlainFirst(first: Hash, rest: seq<Hash>)
    ensures Plain([first] + rest) == [first.bytes] + Plain(rest)
  {
  }

  /** The proof for every node of every row. */
  lemma {:induction false} ProofIsPlain(digest: Digest, row: seq<Hash>, i: nat)
    requires i < |row|
    ensures Plain(PathOf(TreeHasher(digest), row, i)) == PlainProof(digest, Plain(row), i)
    decreases |row|
  {
    if |row| > 1 {
      hide Plain, PlainUp, Above, TreeHasher, Pad, Sibling;
      var above := Above(TreeHasher(digest), row);
      HalfIsQuotient(i);
      NeighbourIsPlain(row, i);
      AboveIsPlain(digest, row);
      ProofIsPlain(digest, above, Half(i));
      PlainFirst(Pad(row)[Sibling(i)], PathOf(TreeHasher(digest), above, Half(i)));
    }
  }

  /** The proof for every leaf of every batch. */
  lemma {:induction false} BatchProofIsPlain(digest: Digest, batch: seq<Bytes>, i: nat)
    requires i < |batch|
    ensures Plain(PathOf(TreeHasher(digest), LeafRow(TreeHasher(digest), batch), i)) == PlainProof(digest, PlainLeaves(digest, batch), i)
  {
    LeavesArePlain(digest, batch);
    ProofIsPlain(digest, LeafRow(TreeHasher(digest), batch), i);
  }

  /** The climb of every path, for every index. */
  lemma {:induction false} ClimbIsPlain(digest: Digest, index: nat, node: Hash, path: seq<Hash>)
    ensures Climb(TreeHasher(digest), index, node, path).bytes == PlainClimb(digest, index, node.bytes, Plain(path))
    decreases |path|
  {
    if path != [] {
      var next := TreeHasher(digest)(StepInput(index, node, path[0]));
      HalfIsQuotient(index);
      NodeIsPlain(digest, node, path[0]);
      NodeIsPlain(digest, path[0], node);
      assert Plain(path)[1..] == Plain(path[1..]);
      ClimbIsPlain(digest, Half(index), next, path[1..]);
    }
  }
}
