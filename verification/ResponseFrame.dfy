/** Framed responses of both drafts: round trips, exact reprinting and the framing methods. */
module ResponseFrames {
  import opened Wrappers
  import opened Primitives
  import opened Cursors
  import opened Certificates
  import opened MerklePaths
  import opened Frames
  import opened WordLists
  import R = Responses

  function ToFrame(r: R.Response): (b: Bytes)
    requires r.Sized()
    ensures |b| == FRAME_OVERHEAD + r.Size()
  {
    SizeBound(r);
    Framed(R.Encode(r))
  }

  function FromFrame(b: Bytes): Parse<R.Response> {
    var message :- Unframe(b);
    R.Decode(message)
  }

  lemma SizeBound(r: R.Response)
    ensures 400 <= r.Size() <= 0x1000
    ensures r.Size() == 400 + 32 * |r.path| + 4 * |r.srep.vers|
  {
    PathSizeIsProduct(|r.path|);
    var p, v := |r.path|, |r.srep.vers|;
    assert p <= 32 && v <= 32;
  }

  /** A framed response is parsed back, unchanged and with nothing left, exactly when it is coherent. */
  lemma FrameRoundTrip(r: R.Response)
    requires r.Sized()
    ensures FromFrame(ToFrame(r)) == Ok((r, [])) <==> R.Coherent(r, 0)
  {
    SizeBound(r);
    UnframeFramed(R.Encode(r));
    assert R.Encode(r) + [] == R.Encode(r);
    R.ParsePrinted(r, []);
  }

  /**
    Whatever setters a response was built with, its frame is parsed back exactly when PATH or SREP
    was set, which refreshes the offsets, and the SREP is coherent in front of CERT and INDX.
  */
  lemma SettersRoundTrip(setters: seq<R.Setter>)
    ensures var r := R.ApplyAll(setters);
            r.Sized() && (FromFrame(ToFrame(r)) == Ok((r, [])) <==> R.Refreshing(setters) && R.SR.Coherent(r.srep, CERT_SIZE + 4))
  {
    var r := R.ApplyAll(setters);
    R.SettersKeepOffsets(setters);
    FrameRoundTrip(r);
    if R.Refreshing(setters) {
      R.RefreshedAlone(r, CERT_SIZE + 4);
    } else {
      UnrefreshedSrep(setters);
      DefaultIncoherent(r);
    }
  }

  lemma DefaultIncoherent(r: R.Response)
    requires r.srep == R.SR.DEFAULT_SREP
    ensures !R.Coherent(r, 0)
  {
  }

  lemma {:induction false} UnrefreshedSrep(setters: seq<R.Setter>)
    requires !R.Refreshing(setters)
    ensures R.ApplyAll(setters).srep == R.SR.DEFAULT_SREP
  {
    if setters != [] {
      UnrefreshedSrep(setters[..|setters| - 1]);
    }
  }

  /**
    A parsed frame prints to exactly the bytes that were received when, and only when, nothing
    trails the message, the announced length is its length and no version was sent as the legacy zero.
  */
  lemma FrameReprints(b: Bytes)
    requires FromFrame(b).Ok?
    ensures var (r, rest) := FromFrame(b).value;
            && r.Sized() && R.Decode(Unframe(b).value).Ok?
            && (ToFrame(r) == b <==> rest == [] && Announced(b) == |b| - FRAME_OVERHEAD && R.LegacyFree(Unframe(b).value))
  {
    var message := Unframe(b).value;
    var (r, rest) := R.Decode(message).value;
    FrameUnframed(b);
    R.PrintParsed(message);
    SizeBound(r);
    FramedIs(b, R.Encode(r), message);
    assert rest == [] ==> R.Encode(r) + rest == R.Encode(r);
  }

  method ReadFrame(cursor: ParseCursor) returns (r: Result<R.Response, Error>)
    requires cursor.Valid()
    modifies cursor`position
    ensures cursor.Valid() && Agrees(FromFrame(old(cursor.Tail())), r, cursor.Tail())
  {
    var _ :- FrameHeadFromWire(cursor);
    r := R.FromWire(cursor);
  }

  /** Prints a frame where it fits. */
  method WriteFrame(r: R.Response, cursor: ParseCursor) returns (done: Result<(), Error>)
    requires r.Sized() && cursor.Valid() && FRAME_OVERHEAD + r.Size() <= cursor.Remaining()
    modifies cursor`position, cursor.buf
    ensures cursor.Valid() && cursor.Outside() == old(cursor.Outside()) && done.Ok?
    ensures cursor.Written() == old(cursor.Written()) + ToFrame(r)
    ensures cursor.Remaining() == old(cursor.Remaining()) - (FRAME_OVERHEAD + r.Size())
  {
    ghost var written := cursor.Written();
    SizeBound(r);
    var head := FrameHeadToWire(r.Size(), cursor);
    done := R.ToWire(r, cursor);
    Onto3(written, BE(FRAME_MAGIC, 8), LE(r.Size(), 4), R.Encode(r));
  }

  method AsFrameBytes(r: R.Response) returns (b: Bytes)
    requires r.Sized()
    ensures b == ToFrame(r)
  {
    var buf := new byte[FRAME_OVERHEAD + r.Size()](_ => 0);
    var cursor := new ParseCursor(buf, 0, buf.Length);
    var done := WriteFrame(r, cursor);
    assert cursor.Written() == buf[..];
    b := buf[..];
  }
}

module LegacyResponseFrames {
  import opened Wrappers
  import opened Primitives
  import opened Cursors
  import opened MerklePaths
  import opened Frames
  import R = LegacyResponses

  function ToFrame(r: R.Response): (b: Bytes)
    requires r.Sized()
    ensures |b| == FRAME_OVERHEAD + r.Size()
  {
    SizeBound(r);
    Framed(R.Encode(r))
  }

  function FromFrame(b: Bytes): Parse<R.Response> {
    var message :- Unframe(b);
    R.Decode(message)
  }

  lemma SizeBound(r: R.Response)
    ensures r.Size() == 340 + 32 * |r.path| <= 0x1000
  {
    PathSizeIsProduct(|r.path|);
    var p := |r.path|;
    assert p <= 32;
  }

  lemma FrameRoundTrip(r: R.Response)
    requires r.Sized()
    ensures FromFrame(ToFrame(r)) == Ok((r, [])) <==> R.Coherent(r, 0)
  {
    SizeBound(r);
    UnframeFramed(R.Encode(r));
    assert R.Encode(r) + [] == R.Encode(r);
    R.ParsePrinted(r, []);
  }

  method ReadFrame(cursor: ParseCursor) returns (r: Result<R.Response, Error>)
    requires cursor.Valid()
    modifies cursor`position
    ensures cursor.Valid() && Agrees(FromFrame(old(cursor.Tail())), r, cursor.Tail())
  {
    var _ :- FrameHeadFromWire(cursor);
    r := R.FromWire(cursor);
  }

  method WriteFrame(r: R.Response, cursor: ParseCursor) returns (done: Result<(), Error>)
    requires r.Sized() && cursor.Valid() && FRAME_OVERHEAD + r.Size() <= cursor.Remaining()
    modifies cursor`position, cursor.buf
    ensures cursor.Valid() && cursor.Outside() == old(cursor.Outside()) && done.Ok?
    ensures cursor.Written() == old(cursor.Written()) + ToFrame(r)
    ensures cursor.Remaining() == old(cursor.Remaining()) - (FRAME_OVERHEAD + r.Size())
  {
    ghost var written := cursor.Written();
    SizeBound(r);
    var head := FrameHeadToWire(r.Size(), cursor);
    done := R.ToWire(r, cursor);
    Onto3(written, BE(FRAME_MAGIC, 8), LE(r.Size(), 4), R.Encode(r));
  }
}
