/** The fixed buffer of at most 32 path elements that the server reuses for every response. */
module MerklePaths {
  import opened Wrappers
  import opened Primitives
  import opened Cursors
  import opened MerkleSpec

  const MAX_PATHS: nat := 32
  const ELEMENT_SIZE: nat := 32
  const CAPACITY: nat := 1024

  type Path = p: seq<Hash> | |p| <= MAX_PATHS

  // ---- Paths on the wire -----------------------------------------------------------------------

  /** Bytes of n path elements. */
  function PathSize(n: nat): nat {
    if n == 0 then 0 else PathSize(n - 1) + ELEMENT_SIZE
  }

  lemma {:induction false} PathSizeIsProduct(n: nat)
    ensures PathSize(n) == 32 * n
  {
    if n > 0 {
      PathSizeIsProduct(n - 1);
    }
  }

  function EncodePath(path: seq<Hash>): (b: Bytes)
    ensures |b| == PathSize(|path|)
  {
    if path == [] then [] else path[0].bytes + EncodePath(path[1..])
  }

  function Chunks(b: Bytes, n: nat): (path: seq<Hash>)
    requires |b| == PathSize(n)
    ensures |path| == n
  {
    if n == 0 then [] else [Hash(b[..32])] + Chunks(b[32..], n - 1)
  }

  /** A path of announced length: at most 1024 bytes, in whole elements. */
  function TakePath(b: Bytes, n: nat): Parse<Path> {
    if n == 0 then Ok(([], b))
    else if n > CAPACITY then Err(BufferTooSmall(n, CAPACITY))
    else if n % ELEMENT_SIZE != 0 then Err(InvalidPathLength(n))
    else
      PathSizeIsProduct(n / ELEMENT_SIZE);
      var (raw, rest) :- Take(b, n);
      Ok((Chunks(raw, n / ELEMENT_SIZE), rest))
  }

  lemma {:induction false} ChunksOfEncoded(path: seq<Hash>)
    ensures Chunks(EncodePath(path), |path|) == path
  {
    if path != [] {
      ChunksOfEncoded(path[1..]);
      assert EncodePath(path)[..32] == path[0].bytes && EncodePath(path)[32..] == EncodePath(path[1..]);
    }
  }

  lemma {:induction false} EncodedChunks(b: Bytes, n: nat)
    requires |b| == PathSize(n)
    ensures EncodePath(Chunks(b, n)) == b
  {
    if n > 0 {
      var path := Chunks(b, n);
      EncodedChunks(b[32..], n - 1);
      assert path[0].bytes == b[..32] && path[1..] == Chunks(b[32..], n - 1);
    }
  }

  /** A printed path is read back from its announced length. */
  lemma PathParsePrinted(path: Path, n: nat, rest: Bytes)
    requires n == PathSize(|path|)
    ensures TakePath(EncodePath(path) + rest, n) == Ok((path, rest))
  {
    PathSizeIsProduct(|path|);
    TakeFront(EncodePath(path), rest);
    ChunksOfEncoded(path);
  }

  /** A path that is read has the announced length and reprints to its bytes. */
  lemma PathPrintParsed(b: Bytes, n: nat)
    requires TakePath(b, n).Ok?
    ensures var (path, rest) := TakePath(b, n).value;
            PathSize(|path|) == n && b == EncodePath(path) + rest
  {
    if n > 0 {
      PathSizeIsProduct(n / ELEMENT_SIZE);
      EncodedChunks(Take(b, n).value.0, n / ELEMENT_SIZE);
    }
  }

  method GetPath(n: nat, cursor: ParseCursor) returns (r: Result<Path, Error>)
    requires cursor.Valid()
    modifies cursor`position
    ensures cursor.Valid() && Agrees(TakePath(old(cursor.Tail()), n), r, cursor.Tail())
  {
    if n == 0 {
      return Ok([]);
    }
    if n > CAPACITY {
      return Err(BufferTooSmall(n, CAPACITY));
    }
    if n % ELEMENT_SIZE != 0 {
      return Err(InvalidPathLength(n));
    }
    PathSizeIsProduct(n / ELEMENT_SIZE);
    var raw :- cursor.TryGetFixed(n);
    return Ok(Chunks(raw, n / ELEMENT_SIZE));
  }

  class MerklePath {
    var numPaths: nat
    const data: array<byte>

    ghost predicate Valid()
      reads this
    {
      numPaths <= MAX_PATHS && data.Length == CAPACITY
    }

    constructor ()
      ensures Valid() && fresh(data) && Elements() == []
    {
      numPaths := 0;
      data := new byte[CAPACITY](_ => 0);
    }

    /** The path elements; bytes beyond the depth are not part of the value. */
    function Elements(): (path: Path)
      requires Valid()
      reads this, data
      ensures |path| == numPaths
    {
      seq<Hash>(numPaths, i requires 0 <= i < numPaths reads this, data requires Valid() => ElementAt(i))
    }

    function ElementAt(i: nat): Hash
      requires data.Length == CAPACITY && i < MAX_PATHS
      reads data
    {
      Hash(data[i * ELEMENT_SIZE..i * ELEMENT_SIZE + ELEMENT_SIZE])
    }

    predicate IsEmpty()
      reads this
    {
      numPaths == 0
    }

    method Clear()
      requires Valid()
      modifies this`numPaths
      ensures Valid() && Elements() == []
    {
      numPaths := 0;
    }

    method PushElement(element: Hash)
      requires Valid() && numPaths < MAX_PATHS
      modifies this`numPaths, data
      ensures Valid() && Elements() == old(Elements()) + [element]
    {
      var start := numPaths * ELEMENT_SIZE;
      forall k | 0 <= k < ELEMENT_SIZE {
        data[start + k] := element.bytes[k];
      }
      numPaths := numPaths + 1;
      assert data[start..start + ELEMENT_SIZE] == element.bytes;
      forall i | 0 <= i < numPaths - 1
        ensures ElementAt(i) == old(ElementAt(i))
      {
        assert i * ELEMENT_SIZE + ELEMENT_SIZE <= start;
      }
    }

    method CopyFrom(other: MerklePath)
      requires Valid() && other.Valid() && data != other.data
      modifies this`numPaths, data
      ensures Valid() && Elements() == old(other.Elements())
    {
      numPaths := other.numPaths;
      var end := other.numPaths * ELEMENT_SIZE;
      forall k | 0 <= k < end {
        data[k] := other.data[k];
      }
      forall i | 0 <= i < numPaths
        ensures ElementAt(i) == old(other.ElementAt(i))
      {
        assert i * ELEMENT_SIZE + ELEMENT_SIZE <= end;
        assert data[i * ELEMENT_SIZE..i * ELEMENT_SIZE + ELEMENT_SIZE] == other.data[i * ELEMENT_SIZE..i * ELEMENT_SIZE + ELEMENT_SIZE];
      }
    }
  }
}
