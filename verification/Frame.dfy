/** Framing: eight bytes of magic, the length of the message, the message. */
module Frames {
  import opened Wrappers
  import opened Primitives
  import opened Cursors

  const FRAME_MAGIC: u64 := 0x524f55474854494d
  const FRAME_OVERHEAD: nat := 12
  const MINIMUM_FRAME_SIZE: nat := 100

  function Framed(message: Bytes): (b: Bytes)
    requires |message| < 0x1_0000_0000
    ensures |b| == FRAME_OVERHEAD + |message|
  {
    BE(FRAME_MAGIC, 8) + (LE(|message|, 4) + message)
  }

  function Min(x: nat, y: nat): nat {
    if x < y then x else y
  }

  /** The checks of the announced length against the bytes that are there. */
  function CheckLength(length: u32, remaining: nat): Result<(), Error> {
    if length < MINIMUM_FRAME_SIZE || remaining < MINIMUM_FRAME_SIZE then Err(UnexpectedFraming(Min(length, remaining)))
    else if length > remaining then Err(BufferTooSmall(length, remaining))
    else Ok(())
  }

  /** What follows the frame's own fields; bytes beyond the announced length are let through. */
  function Unframe(b: Bytes): Result<Bytes, Error> {
    var (magic, b1) :- TakeU64BE(b);
    if magic != FRAME_MAGIC then Err(UnexpectedMagic(magic))
    else
      var (length, b2) :- TakeU32(b1);
      var _ :- CheckLength(length, |b2|);
      Ok(b2)
  }

  /** The announced length of a frame. */
  function Announced(b: Bytes): u32
    requires |b| >= FRAME_OVERHEAD
  {
    TakeU32(TakeU64BE(b).value.1).value.0
  }

  /** Framing and unframing gives the message back, unless it is below the minimum. */
  lemma UnframeFramed(message: Bytes)
    requires |message| < 0x1_0000_0000
    ensures |message| >= MINIMUM_FRAME_SIZE ==> Unframe(Framed(message)) == Ok(message)
    ensures |message| < MINIMUM_FRAME_SIZE ==> Unframe(Framed(message)) == Err(UnexpectedFraming(|message|))
  {
    TakeFrontU64BE(FRAME_MAGIC, LE(|message|, 4) + message);
    TakeFrontU32(|message|, message);
  }

  /** An unframed message is the frame's tail; the frame is its framing exactly when the announced length is its length. */
  lemma FrameUnframed(b: Bytes)
    requires Unframe(b).Ok?
    ensures |b| >= FRAME_OVERHEAD && Unframe(b).value == b[FRAME_OVERHEAD..]
    ensures MINIMUM_FRAME_SIZE <= Announced(b) <= |b| - FRAME_OVERHEAD
    ensures |b| - FRAME_OVERHEAD < 0x1_0000_0000 ==>
              (b == Framed(Unframe(b).value) <==> Announced(b) == |b| - FRAME_OVERHEAD)
  {
    var (magic, b1) := TakeU64BE(b).value;
    var (length, b2) := TakeU32(b1).value;
    assert b == BE(magic, 8) + b1 by { WordsReprint(b); }
    assert b1 == LE(length, 4) + b2 by { WordsReprint(b1); }
    FrameExact(b, length, b2);
  }

  lemma FrameExact(b: Bytes, length: u32, message: Bytes)
    requires b == BE(FRAME_MAGIC, 8) + (LE(length, 4) + message)
    ensures |b| == FRAME_OVERHEAD + |message| && message == b[FRAME_OVERHEAD..]
    ensures |message| < 0x1_0000_0000 ==> (b == Framed(message) <==> length == |message|)
  {
    var words := BE(FRAME_MAGIC, 8) + LE(length, 4);
    assert b == words + message;
    if |message| < 0x1_0000_0000 {
      SameFront(BE(FRAME_MAGIC, 8), LE(|message|, 4) + message, LE(length, 4) + message);
      SameBack(LE(|message|, 4), LE(length, 4), message);
      U32RoundTrip(|message|);
      U32RoundTrip(length);
    }
  }

  lemma FramedIs(b: Bytes, x: Bytes, message: Bytes)
    requires |b| >= FRAME_OVERHEAD && message == b[FRAME_OVERHEAD..] && |x| < 0x1_0000_0000
    ensures Framed(x) == b <==> x == message && |message| < 0x1_0000_0000 && Framed(message) == b
  {
    FrameExact(Framed(x), |x|, x);
  }

  method FrameHeadFromWire(cursor: ParseCursor) returns (r: Result<(), Error>)
    requires cursor.Valid()
    modifies cursor`position
    ensures cursor.Valid()
    ensures match Unframe(old(cursor.Tail()))
            case Ok(message) => r.Ok? && cursor.Tail() == message
            case Err(error) => r == Err(error)
  {
    var magic :- cursor.TryGetU64BE();
    if magic != FRAME_MAGIC {
      return Err(UnexpectedMagic(magic));
    }
    var length :- cursor.TryGetU32();
    assert cursor.Remaining() == |cursor.Tail()|;
    r := CheckLength(length, cursor.Remaining());
  }

  /** The frame's own fields, in front of a message of the given size. */
  method FrameHeadToWire(size: u32, cursor: ParseCursor) returns (r: Result<(), Error>)
    requires cursor.Valid()
    modifies cursor`position, cursor.buf
    ensures cursor.Valid() && cursor.Outside() == old(cursor.Outside())
    ensures var room, written, magic := old(cursor.Remaining()), old(cursor.Written()), BE(FRAME_MAGIC, 8);
            if room < 8 then r == Err(BufferTooSmall(8, room)) && cursor.Written() == written && cursor.Remaining() == room
            else if room < FRAME_OVERHEAD then
              r == Err(BufferTooSmall(4, room - 8)) && cursor.Written() == written + magic && cursor.Remaining() == room - 8
            else
              r.Ok? && cursor.Written() == written + magic + LE(size, 4) && cursor.Remaining() == room - FRAME_OVERHEAD
  {
    var _ :- cursor.TryPutFixed(BE(FRAME_MAGIC, 8));
    r := cursor.TryPutFixed(LE(size, 4));
  }
}
