/** The tree over whole histories of pushes, reservations, root computations and clears. */
module MerkleHistory {
  import opened Wrappers
  import opened Primitives
  import opened MerkleBinding
  import opened MerkleSpec
  import opened MerkleTrees

  datatype Op = Push(data: Bytes) | Reserve(numLeaves: nat) | Compute | Clear

  /** The levels after one operation; computing the root of an empty tree panics and changes nothing. */
  function Step(hash: Hasher, levels: Levels, op: Op): Levels {
    match op
    case Push(data) => Pushed(levels, Leaf(hash, data))
    case Reserve(n) => Reserved(levels, n)
    case Compute => if levels[0] == [] then levels else RaisedAll(hash, levels, 0)
    case Clear => Cleared(levels)
  }

  function Last(ops: seq<Op>): Op
    requires ops != []
  {
    ops[|ops| - 1]
  }

  function Earlier(ops: seq<Op>): seq<Op>
    requires ops != []
  {
    ops[..|ops| - 1]
  }

  /** A new tree put through a history. */
  function Run(hash: Hasher, ops: seq<Op>): Levels {
    if ops == [] then [[]] else Step(hash, Run(hash, Earlier(ops)), Last(ops))
  }

  /** The leaves pushed since the last clear. */
  function Batch(ops: seq<Op>): seq<Bytes> {
    if ops == [] then []
    else
      match Last(ops)
      case Push(data) => Batch(Earlier(ops)) + [data]
      case Clear => []
      case _ => Batch(Earlier(ops))
  }

  /** What stands in the leaf row: pushed data, and `None` where a root computation padded. */
  function LeafLine(ops: seq<Op>): (line: seq<Option<Bytes>>) {
    if ops == [] then []
    else
      var line := LeafLine(Earlier(ops));
      match Last(ops)
      case Push(data) => line + [Some(data)]
      case Compute => if |line| > 1 && Odd(|line|) then line + [None] else line
      case Clear => []
      case Reserve(_) => line
  }

  function Drawn(hash: Hasher, line: seq<Option<Bytes>>): (row: seq<Hash>)
    ensures |row| == |line|
  {
    if line == [] then []
    else
      var k := |line| - 1;
      Drawn(hash, line[..k]) + [if line[k].Some? then Leaf(hash, line[k].value) else ZERO_NODE]
  }

  lemma DrawnAppend(hash: Hasher, line: seq<Option<Bytes>>, x: Option<Bytes>)
    ensures Drawn(hash, line + [x]) == Drawn(hash, line) + [if x.Some? then Leaf(hash, x.value) else ZERO_NODE]
  {
    assert (line + [x])[..|line|] == line;
  }

  lemma RaisedAllLeafRow(hash: Hasher, levels: Levels)
    ensures RaisedAll(hash, levels, 0)[0] == Pad(levels[0])
  {
    RaisedAllBuilds(hash, levels[0], levels, 0);
    BuiltAtLeaves(hash, levels[0], RaisedAll(hash, levels, 0));
  }

  /** The leaf row depends on nothing but the operations since the last clear. */
  lemma {:induction false} LeafRowOfRun(hash: Hasher, ops: seq<Op>)
    ensures Run(hash, ops)[0] == Drawn(hash, LeafLine(ops))
  {
    if ops != [] {
      var before, line := Run(hash, Earlier(ops)), LeafLine(Earlier(ops));
      LeafRowOfRun(hash, Earlier(ops));
      match Last(ops)
      case Push(data) =>
        DrawnAppend(hash, line, Some(data));
      case Compute =>
        RaisedAllLeafRow(hash, before);
        DrawnAppend(hash, line, None);
      case Clear =>
      case Reserve(_) =>
    }
  }

  /** A padding node is in place. */
  predicate Padded(ops: seq<Op>) {
    None in LeafLine(ops)
  }

  /** No leaf was pushed behind a padding node since the last clear. */
  predicate PushesFirst(ops: seq<Op>) {
    ops == [] ||
    match Last(ops)
    case Push(_) => PushesFirst(Earlier(ops)) && !Padded(Earlier(ops))
    case Clear => true
    case _ => PushesFirst(Earlier(ops))
  }

  function Somes(batch: seq<Bytes>): (line: seq<Option<Bytes>>)
    ensures |line| == |batch|
    ensures forall i :: 0 <= i < |batch| ==> line[i] == Some(batch[i])
  {
    seq(|batch|, i requires 0 <= i < |batch| => Some(batch[i]))
  }

  /** The leaf row is the batch, followed by at most one padding node. */
  predicate Clean(ops: seq<Op>) {
    LeafLine(ops) == Somes(Batch(ops)) || LeafLine(ops) == Somes(Batch(ops)) + [None]
  }

  lemma SomesAppend(batch: seq<Bytes>, data: Bytes)
    ensures Somes(batch + [data]) == Somes(batch) + [Some(data)]
  {
  }

  lemma NoneNotInSomes(batch: seq<Bytes>)
    ensures None !in Somes(batch)
  {
  }

  /** Exactly the histories that push before they compute leave the batch, and only it, in the leaf row. */
  lemma {:induction false} CleanExactly(ops: seq<Op>)
    ensures Clean(ops) <==> PushesFirst(ops)
    ensures Clean(ops) && Padded(ops) ==> !Odd(|LeafLine(ops)|) && |LeafLine(ops)| > 2
    ensures |Batch(ops)| <= |LeafLine(ops)|
  {
    if ops != [] {
      var line, batch := LeafLine(Earlier(ops)), Batch(Earlier(ops));
      CleanExactly(Earlier(ops));
      NoneNotInSomes(batch);
      match Last(ops)
      case Push(data) =>
        PushKeepsClean(line, batch, data);
      case Compute =>
        if |line| > 1 && Odd(|line|) {
          ComputeKeepsClean(line, batch);
        }
      case Clear =>
        assert Somes([]) == [];
      case Reserve(_) =>
    }
  }

  lemma PushKeepsClean(line: seq<Option<Bytes>>, batch: seq<Bytes>, data: Bytes)
    ensures line + [Some(data)] == Somes(batch + [data]) <==> line == Somes(batch)
    ensures line + [Some(data)] != Somes(batch + [data]) + [None]
    ensures line == Somes(batch) ==> None !in line + [Some(data)]
    ensures line == Somes(batch) + [None] ==> None in line
  {
    SomesAppend(batch, data);
    NoneNotInSomes(batch);
    var longer, somes := line + [Some(data)], Somes(batch) + [Some(data)];
    if longer == somes {
      assert line == longer[..|line|] && Somes(batch) == somes[..|batch|];
    }
    assert longer[|line|] == Some(data);
    assert (somes + [None])[|somes|] == None;
    if line == Somes(batch) + [None] {
      assert line[|batch|] == None;
    }
  }

  lemma ComputeKeepsClean(line: seq<Option<Bytes>>, batch: seq<Bytes>)
    requires |line| > 1 && Odd(|line|)
    requires line == Somes(batch) + [None] ==> !Odd(|line|)
    ensures (line + [None] == Somes(batch) || line + [None] == Somes(batch) + [None]) <==> line == Somes(batch)
    ensures !Odd(|line + [None]|) && |line| > 2
  {
    NoneNotInSomes(batch);
    var longer := line + [None];
    assert longer[|line|] == None;
    if longer == Somes(batch) + [None] {
      assert line == longer[..|line|] && Somes(batch) == (Somes(batch) + [None])[..|batch|];
    }
  }

  lemma {:induction false} DrawnSomes(hash: Hasher, batch: seq<Bytes>)
    ensures Drawn(hash, Somes(batch)) == LeafRow(hash, batch)
  {
    if batch != [] {
      var k := |batch| - 1;
      DrawnSomes(hash, batch[..k]);
      assert batch == batch[..k] + [batch[k]];
      SomesAppend(batch[..k], batch[k]);
      DrawnAppend(hash, Somes(batch[..k]), Some(batch[k]));
    }
  }

  /**
    Refinement over histories. After any history that pushes before it computes, however large the
    earlier batches were and however often the root was computed or capacity reserved, the root is
    the top node of the reference tree over exactly the leaves pushed since the last clear.
  */
  lemma HistoryRefinesReferenceTree(hash: Hasher, ops: seq<Op>)
    requires PushesFirst(ops) && Batch(ops) != []
    ensures Run(hash, ops)[0] != []
    ensures var leaves := LeafRow(hash, Batch(ops));
            Root(hash, Run(hash, ops)[0]) == NodeAt(hash, leaves, Depth(|leaves|), 0)
  {
    var batch := Batch(ops);
    var leaves := LeafRow(hash, batch);
    CleanExactly(ops);
    LeafRowOfRun(hash, ops);
    DrawnSomes(hash, batch);
    if LeafLine(ops) == Somes(batch) + [None] {
      assert LeafLine(ops)[|batch|] == None;
      DrawnAppend(hash, Somes(batch), None);
      assert Odd(|leaves|);
      RootOfPadded(hash, leaves);
    }
    RootIsTopNode(hash, leaves);
  }

  // ---- A leaf behind a padding node ---------------------------------------------------------

  lemma {:induction false} DrawnAt(hash: Hasher, line: seq<Option<Bytes>>, i: nat)
    requires i < |line|
    ensures Drawn(hash, line)[i] == if line[i].Some? then Leaf(hash, line[i].value) else ZERO_NODE
  {
    var k := |line| - 1;
    if i < k {
      DrawnAt(hash, line[..k], i);
    }
  }

  /** The first leaf of the batch is always in first place. */
  lemma {:induction false} FirstLeafFirst(ops: seq<Op>)
    ensures Batch(ops) == [] ==> LeafLine(ops) == []
    ensures Batch(ops) != [] ==> LeafLine(ops) != [] && LeafLine(ops)[0] == Some(Batch(ops)[0])
  {
    if ops != [] {
      FirstLeafFirst(Earlier(ops));
    }
  }

  /** In all other histories a padding node stands before the end of the row. */
  lemma {:induction false} PaddingInside(ops: seq<Op>) returns (p: nat)
    requires !PushesFirst(ops)
    ensures p + 1 < |LeafLine(ops)| && LeafLine(ops)[p] == None
  {
    if Last(ops).Push? && PushesFirst(Earlier(ops)) {
      p :| 0 <= p < |LeafLine(Earlier(ops))| && LeafLine(Earlier(ops))[p] == None;
    } else {
      p := PaddingInside(Earlier(ops));
    }
  }

  /** A row that starts with the first leaf of a batch but has another depth has another root. */
  lemma OtherDepthBreaks(hash: Hasher, row: seq<Hash>, batch: seq<Bytes>, inputs: set<HashInput>)
    requires row != [] && batch != [] && row[0] == Leaf(hash, batch[0])
    requires Depth(|row|) != Depth(|batch|)
    requires Root(hash, row) == Root(hash, LeafRow(hash, batch))
    requires TreeInputs(hash, batch) + NodeInputs(hash, row) <= inputs
    ensures Broken(hash, inputs)
  {
    var path := PathOf(hash, row, 0);
    PathReachesRoot(hash, row, 0);
    assert Pad(row)[0] == row[0];
    NodeInputsCover(hash, row, inputs);
    PathInputsWithin(hash, row, 0, inputs);
    assert LeafInput(batch[0]) in TreeInputs(hash, batch);
    ProofBindsLeaf(hash, batch, 0, batch[0], path);
    BrokenMonotone(hash, TreeInputs(hash, batch) + CheckInputs(hash, 0, batch[0], path), inputs);
  }

  /** Rows of one depth and one root are padded alike. */
  lemma EqualRootsEqualPadding(hash: Hasher, a: seq<Hash>, b: seq<Hash>, inputs: set<HashInput>)
    requires |a| > 1 && |b| > 1 && Depth(|a|) == Depth(|b|)
    requires Root(hash, a) == Root(hash, b)
    requires Covered(hash, a, inputs) && Covered(hash, b, inputs)
    ensures Pad(a) == Pad(b) || Broken(hash, inputs)
  {
    EqualRootsEqualRows(hash, Above(hash, a), Above(hash, b), inputs);
    ZeroAboveBreaks(hash, a, inputs);
    ZeroAboveBreaks(hash, b, inputs);
    if !Broken(hash, inputs) {
      ParentsEqual(hash, Pad(a), Pad(b), inputs);
    }
  }

  /** A row of a batch's depth with a zero before its end has another root. */
  lemma ZeroInsideBreaks(hash: Hasher, row: seq<Hash>, batch: seq<Bytes>, p: nat, inputs: set<HashInput>)
    requires batch != [] && p + 1 < |row| && row[p] == ZERO_NODE
    requires Depth(|row|) == Depth(|batch|)
    requires Root(hash, row) == Root(hash, LeafRow(hash, batch))
    requires TreeInputs(hash, batch) + NodeInputs(hash, row) <= inputs
    ensures Broken(hash, inputs)
  {
    var leaves := LeafRow(hash, batch);
    NodeInputsCover(hash, row, inputs);
    NodeInputsCover(hash, leaves, inputs);
    EqualRootsEqualPadding(hash, row, leaves, inputs);
    if !Broken(hash, inputs) {
      assert Pad(leaves)[p] == Pad(row)[p] == ZERO_NODE;
      assert leaves[p] == ZERO_NODE;
      ZeroLeafBreaks(hash, batch, inputs);
    }
  }

  /** What computing a root after a history hashes, and what the reference tree hashes. */
  ghost function HistoryInputs(hash: Hasher, ops: seq<Op>): set<HashInput> {
    TreeInputs(hash, Batch(ops)) + NodeInputs(hash, Run(hash, ops)[0])
  }

  /** After a history the computed root is that of the reference tree over the leaves since the last clear. */
  ghost predicate RootIsReference(hash: Hasher, ops: seq<Op>)
    requires Run(hash, ops)[0] != []
  {
    var leaves := LeafRow(hash, Batch(ops));
    Root(hash, Run(hash, ops)[0]) == NodeAt(hash, leaves, Depth(|leaves|), 0)
  }

  lemma HistoryHasLeaves(hash: Hasher, ops: seq<Op>)
    requires Batch(ops) != []
    ensures Run(hash, ops)[0] != [] && Run(hash, ops)[0][0] == Leaf(hash, Batch(ops)[0])
  {
    FirstLeafFirst(ops);
    LeafRowOfRun(hash, ops);
    DrawnAt(hash, LeafLine(ops), 0);
  }

  /**
    Any other history misses the reference root: a leaf behind a padding node gives another root,
    or the hash is broken on what the two trees hash.
  */
  lemma MisplacedRootDiffers(hash: Hasher, ops: seq<Op>)
    requires !PushesFirst(ops) && Batch(ops) != []
    ensures Run(hash, ops)[0] != []
    ensures RootIsReference(hash, ops) ==> Broken(hash, HistoryInputs(hash, ops))
  {
    var batch, row := Batch(ops), Run(hash, ops)[0];
    HistoryHasLeaves(hash, ops);
    RootIsTopNode(hash, LeafRow(hash, batch));
    if RootIsReference(hash, ops) {
      if Depth(|row|) != Depth(|batch|) {
        OtherDepthBreaks(hash, row, batch, HistoryInputs(hash, ops));
      } else {
        var p := PaddingInside(ops);
        LeafRowOfRun(hash, ops);
        DrawnAt(hash, LeafLine(ops), p);
        ZeroInsideBreaks(hash, row, batch, p, HistoryInputs(hash, ops));
      }
    }
  }

  /** Recomputing the root refines the reference tree for exactly the histories that push before they compute. */
  lemma RootIsReferenceExactly(hash: Hasher, ops: seq<Op>)
    requires Batch(ops) != []
    ensures Run(hash, ops)[0] != []
    ensures (RootIsReference(hash, ops) <==> PushesFirst(ops)) || Broken(hash, HistoryInputs(hash, ops))
    ensures PushesFirst(ops) ==> RootIsReference(hash, ops)
  {
    if PushesFirst(ops) {
      HistoryRefinesReferenceTree(hash, ops);
    } else {
      MisplacedRootDiffers(hash, ops);
    }
  }

  lemma Extend(ops: seq<Op>, op: Op)
    ensures Earlier(ops + [op]) == ops && Last(ops + [op]) == op
  {
  }

  /** The discipline is needed: a fourth leaf pushed after the root of three was computed lands in fifth place and spoils the root. */
  lemma PushAfterPaddingIsMisplaced(hash: Hasher, a: Bytes, b: Bytes, c: Bytes, d: Bytes)
    ensures var ops := [] + [Push(a)] + [Push(b)] + [Push(c)] + [Compute] + [Push(d)];
            && !PushesFirst(ops) && Batch(ops) == [a, b, c, d]
            && Run(hash, ops)[0] == LeafRow(hash, [a, b, c]) + [ZERO_NODE] + [Leaf(hash, d)]
            && (RootIsReference(hash, ops) ==> Broken(hash, HistoryInputs(hash, ops)))
  {
    var o3 := [] + [Push(a)] + [Push(b)] + [Push(c)];
    var o4 := o3 + [Compute];
    var ops := o4 + [Push(d)];
    ThreePushes(a, b, c);
    Extend(o3, Compute);
    Extend(o4, Push(d));
    var line := Somes([a, b, c]);
    assert Odd(3);
    assert LeafLine(o4) == line + [None];
    assert (line + [None])[3] == None;
    assert LeafLine(ops) == line + [None] + [Some(d)];
    LeafRowOfRun(hash, ops);
    DrawnSomes(hash, [a, b, c]);
    DrawnAppend(hash, line, None);
    DrawnAppend(hash, line + [None], Some(d));
    MisplacedRootDiffers(hash, ops);
  }

  lemma ThreePushes(a: Bytes, b: Bytes, c: Bytes)
    ensures var ops := [] + [Push(a)] + [Push(b)] + [Push(c)];
            LeafLine(ops) == Somes([a, b, c]) && Batch(ops) == [a, b, c]
  {
    Extend([], Push(a));
    Extend([] + [Push(a)], Push(b));
    Extend([] + [Push(a)] + [Push(b)], Push(c));
    assert LeafLine([] + [Push(a)]) == [Some(a)] && Batch([] + [Push(a)]) == [a];
    assert LeafLine([] + [Push(a)] + [Push(b)]) == [Some(a), Some(b)] && Batch([] + [Push(a)] + [Push(b)]) == [a, b];
  }
}
