/** The position-advancing cursor over a byte buffer, and the readers it is refined to. */
module Cursors {
  import opened Wrappers
  import opened Primitives

  datatype Error =
    | BadRequestSize(size: nat)
    | BufferTooSmall(needed: nat, available: nat)
    | InvalidTag(value: u32)
    | InvalidVersion(value: u32)
    | InvalidMessageType(value: u32)
    | MismatchedNumTags(expected: u32, actual: u32)
    | InvalidRequestNumTags(actual: u32)
    | UnexpectedMagic(magic: u64)
    | UnexpectedFraming(length: nat)
    | UnexpectedTags
    | UnorderedTag(index: nat, value: u32)
    | UnexpectedOffsets
    | UnorderedOffset(index: nat, value: u32)
    | UnalignedOffset(index: nat, value: u32)
    | OutOfBoundsOffset(index: nat, value: u32)
    | UnorderedVersion(index: nat, value: u32)
    | NoSupportedVersions
    | InvalidPathLength(length: nat)

  /** A value read off the front of a byte string, with what is left. */
  type Parse<T> = Result<(T, Bytes), Error>

  // ---- Readers on byte strings -------------------------------------------------------------

  function Take(b: Bytes, n: nat): (r: Parse<Bytes>)
    ensures r.Ok? <==> n <= |b|
    ensures r.Ok? ==> |r.value.0| == n && r.value.0 + r.value.1 == b
  {
    if |b| < n then Err(BufferTooSmall(n, |b|)) else Ok((b[..n], b[n..]))
  }

  function TakeU32(b: Bytes): (r: Parse<u32>)
    ensures r.Ok? <==> 4 <= |b|
    ensures r.Ok? ==> r.value.1 == b[4..]
  {
    var (word, rest) :- Take(b, 4);
    Ok((U32Of(word), rest))
  }

  function TakeU64(b: Bytes): (r: Parse<u64>)
    ensures r.Ok? <==> 8 <= |b|
    ensures r.Ok? ==> r.value.1 == b[8..]
  {
    var (word, rest) :- Take(b, 8);
    Ok((U64Of(word), rest))
  }

  function TakeU32BE(b: Bytes): (r: Parse<u32>)
    ensures r.Ok? <==> 4 <= |b|
    ensures r.Ok? ==> r.value.1 == b[4..]
  {
    WordSizes();
    var (word, rest) :- Take(b, 4);
    Ok((FromBE(word), rest))
  }

  function TakeU64BE(b: Bytes): (r: Parse<u64>)
    ensures r.Ok? <==> 8 <= |b|
    ensures r.Ok? ==> r.value.1 == b[8..]
  {
    WordSizes();
    var (word, rest) :- Take(b, 8);
    Ok((FromBE(word), rest))
  }

  lemma TakeFront(a: Bytes, rest: Bytes)
    ensures Take(a + rest, |a|) == Ok((a, rest))
  {
  }

  lemma TakeFrontU32(v: u32, rest: Bytes)
    ensures TakeU32(LE(v, 4) + rest) == Ok((v, rest))
  {
    TakeFront(LE(v, 4), rest);
    U32RoundTrip(v);
  }

  lemma TakeFrontU64(v: u64, rest: Bytes)
    ensures TakeU64(LE(v, 8) + rest) == Ok((v, rest))
  {
    TakeFront(LE(v, 8), rest);
    U64RoundTrip(v);
  }

  lemma TakeFrontU32BE(v: u32, rest: Bytes)
    ensures TakeU32BE(BE(v, 4) + rest) == Ok((v, rest))
  {
    WordSizes();
    TakeFront(BE(v, 4), rest);
    DecodeEncodeBE(v, 4);
  }

  lemma TakeFrontU64BE(v: u64, rest: Bytes)
    ensures TakeU64BE(BE(v, 8) + rest) == Ok((v, rest))
  {
    WordSizes();
    TakeFront(BE(v, 8), rest);
    DecodeEncodeBE(v, 8);
  }

  /** Reading a word and printing it again gives the bytes that were read. */
  lemma WordsReprint(b: Bytes)
    ensures |b| >= 4 ==> b == LE(TakeU32(b).value.0, 4) + b[4..]
    ensures |b| >= 4 ==> b == BE(TakeU32BE(b).value.0, 4) + b[4..]
    ensures |b| >= 8 ==> b == LE(TakeU64(b).value.0, 8) + b[8..]
    ensures |b| >= 8 ==> b == BE(TakeU64BE(b).value.0, 8) + b[8..]
  {
    if |b| >= 4 {
      EncodeDecodeLE(b[..4]);
      EncodeDecodeBE(b[..4]);
    }
    if |b| >= 8 {
      EncodeDecodeLE(b[..8]);
      EncodeDecodeBE(b[..8]);
    }
  }

  // ---- The cursor --------------------------------------------------------------------------

  /** A reader method agrees with a parser: same value, same rest, same error. */
  ghost predicate Agrees<T>(spec: Parse<T>, r: Result<T, Error>, rest: Bytes) {
    match spec
    case Ok(parsed) => r == Ok(parsed.0) && rest == parsed.1
    case Err(error) => r == Err(error)
  }

  /** A cursor over the part [lo, hi) of a buffer. */
  class ParseCursor {
    const buf: array<byte>
    const lo: nat
    const hi: nat
    var position: nat

    ghost predicate Valid()
      reads this
    {
      lo <= hi <= buf.Length && position <= hi - lo
    }

    constructor (buf: array<byte>, lo: nat, hi: nat)
      requires lo <= hi <= buf.Length
      ensures Valid() && position == 0
      ensures this.buf == buf && this.lo == lo && this.hi == hi
    {
      this.buf, this.lo, this.hi := buf, lo, hi;
      position := 0;
    }

    /** The bytes in front of the position. */
    ghost function Written(): Bytes
      requires Valid()
      reads this, buf
    {
      buf[lo..lo + position]
    }

    /** The bytes from the position on. */
    ghost function Tail(): Bytes
      requires Valid()
      reads this, buf
    {
      buf[lo + position..hi]
    }

    /** The bytes of the buffer outside the cursor's part. */
    ghost function Outside(): (Bytes, Bytes)
      requires Valid()
      reads this, buf
    {
      (buf[..lo], buf[hi..])
    }

    function Remaining(): (n: nat)
      requires Valid()
      reads this
    {
      hi - lo - position
    }

    function Capacity(): (n: nat)
      requires Valid()
      reads this
    {
      hi - lo
    }

    method TryGetFixed(n: nat) returns (r: Result<Bytes, Error>)
      requires Valid()
      modifies this`position
      ensures Valid() && Agrees(Take(old(Tail()), n), r, Tail())
    {
      if Remaining() < n {
        return Err(BufferTooSmall(n, Remaining()));
      }
      ghost var tail := Tail();
      r := Ok(buf[lo + position..lo + position + n]);
      position := position + n;
      assert tail[..n] == r.value && tail[n..] == Tail();
    }

    method TryGetU32() returns (r: Result<u32, Error>)
      requires Valid()
      modifies this`position
      ensures Valid() && Agrees(TakeU32(old(Tail())), r, Tail())
    {
      var bytes :- TryGetFixed(4);
      r := Ok(U32Of(bytes));
    }

    method TryGetU64() returns (r: Result<u64, Error>)
      requires Valid()
      modifies this`position
      ensures Valid() && Agrees(TakeU64(old(Tail())), r, Tail())
    {
      var bytes :- TryGetFixed(8);
      r := Ok(U64Of(bytes));
    }

    method TryGetU32BE() returns (r: Result<u32, Error>)
      requires Valid()
      modifies this`position
      ensures Valid() && Agrees(TakeU32BE(old(Tail())), r, Tail())
    {
      WordSizes();
      var bytes :- TryGetFixed(4);
      r := Ok(FromBE(bytes));
    }

    method TryGetU64BE() returns (r: Result<u64, Error>)
      requires Valid()
      modifies this`position
      ensures Valid() && Agrees(TakeU64BE(old(Tail())), r, Tail())
    {
      WordSizes();
      var bytes :- TryGetFixed(8);
      r := Ok(FromBE(bytes));
    }

    /** Transfer bytes into the buffer; panics in the source when they do not fit. */
    method PutSlice(src: Bytes)
      requires Valid() && |src| <= Remaining()
      modifies this`position, buf
      ensures Valid() && Written() == old(Written()) + src
      ensures Tail() == old(Tail())[|src|..] && Outside() == old(Outside())
      ensures Remaining() == old(Remaining()) - |src|
    {
      ghost var before := buf[..];
      var start := lo + position;
      CopySlice(start, src);
      position := position + |src|;
      var end := start + |src|;
      assert Written() == before[..start][lo..] + src;
      assert Tail() == before[end..][..hi - end] == before[start..hi][|src|..];
      assert buf[..lo] == before[..start][..lo] == before[..lo];
      assert buf[hi..] == before[end..][hi - end..] == before[hi..];
    }

    /** The slice copy under every put. */
    method CopySlice(start: nat, src: Bytes)
      requires start + |src| <= buf.Length
      modifies buf
      ensures buf[..] == old(buf[..start]) + src + old(buf[start + |src|..])
    {
      forall k | 0 <= k < |src| {
        buf[start + k] := src[k];
      }
    }

    method TryPutFixed(src: Bytes) returns (r: Result<(), Error>)
      requires Valid()
      modifies this`position, buf
      ensures Valid() && Outside() == old(Outside())
      ensures r.Ok? <==> |src| <= old(Remaining())
      ensures r.Ok? ==> Written() == old(Written()) + src && Tail() == old(Tail())[|src|..]
      ensures r.Ok? ==> Remaining() == old(Remaining()) - |src|
      ensures r.Err? ==> r.error == BufferTooSmall(|src|, old(Remaining())) && Written() == old(Written()) && Tail() == old(Tail())
      ensures r.Err? ==> Remaining() == old(Remaining())
    {
      if Remaining() < |src| {
        return Err(BufferTooSmall(|src|, Remaining()));
      }
      PutSlice(src);
      r := Ok(());
    }

    method SetPosition(pos: nat)
      requires Valid() && pos <= Capacity()
      modifies this`position
      ensures Valid() && position == pos
    {
      position := pos;
    }
  }

  /** A cursor over a buffer of its own that holds the given bytes. */
  method CursorOver(bytes: Bytes) returns (cursor: ParseCursor)
    ensures fresh(cursor) && fresh(cursor.buf) && cursor.Valid() && cursor.Tail() == bytes
  {
    var buf := new byte[|bytes|](i requires 0 <= i < |bytes| => bytes[i]);
    cursor := new ParseCursor(buf, 0, buf.Length);
  }
}
