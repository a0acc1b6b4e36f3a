/** Certificates: a delegation of signing power to a key for a time window, signed by the long-term key. */
module Certificates {
  import opened Wrappers
  import opened Primitives
  import opened Cursors
  import opened Tags
  import Headers

  const DELE_OFFSETS: seq<u32> := [32, 40]
  const DELE_TAGS: seq<Tag> := [PUBK, MINT, MAXT]
  const CERT_OFFSETS: seq<u32> := [64]
  const CERT_TAGS: seq<Tag> := [SIG, DELE]

  const DELE_SIZE: nat := 72
  const CERT_SIZE: nat := 152

  /** The header of a delegation never varies, so it is not part of the value; likewise for certificates. */
  datatype Delegation = Delegation(pubk: Bytes32, mint: u64, maxt: u64)

  datatype Certificate = Certificate(sig: Bytes64, dele: Delegation)

  const MAX_TIME: u64 := 0xffff_ffff_ffff_ffff

  function SaturatingAdd(x: u64, y: u64): u64 {
    if x + y <= MAX_TIME then x + y else MAX_TIME
  }

  /** The delegation of a new online key: valid from now on for a while. */
  function NewDelegation(pubk: Bytes32, now: u64, validity: u64): (d: Delegation)
    ensures d.pubk == pubk && d.mint == now <= d.maxt
    ensures if now + validity <= MAX_TIME then d.maxt - d.mint == validity else d.maxt == MAX_TIME
  {
    Delegation(pubk, now, SaturatingAdd(now, validity))
  }

  function DeleHeader(): Headers.Header { Headers.Header(DELE_OFFSETS, DELE_TAGS) }

  function CertHeader(): Headers.Header { Headers.Header(CERT_OFFSETS, CERT_TAGS) }

  function EncodeDele(d: Delegation): (b: Bytes)
    ensures |b| == DELE_SIZE
  {
    Headers.EncodedLength(DeleHeader(), 3);
    Headers.Encode(DeleHeader()) + (d.pubk + (LE(d.mint, 8) + LE(d.maxt, 8)))
  }

  function EncodeCert(c: Certificate): (b: Bytes)
    ensures |b| == CERT_SIZE
  {
    Headers.EncodedLength(CertHeader(), 2);
    Headers.Encode(CertHeader()) + (c.sig + EncodeDele(c.dele))
  }

  /** Values first, then the checks of the header's offsets and of its tags. */
  function DecodeDele(b: Bytes): Parse<Delegation> {
    var (h, b1) :- Headers.Decode(b, 3);
    var (pubk, b2) :- Take(b1, 32);
    var (mint, b3) :- TakeU64(b2);
    var (maxt, b4) :- TakeU64(b3);
    if h.offsets != DELE_OFFSETS then Err(UnexpectedOffsets)
    else if h.tags != DELE_TAGS then Err(UnexpectedTags)
    else Ok((Delegation(pubk, mint, maxt), b4))
  }

  function DecodeCert(b: Bytes): Parse<Certificate> {
    var (h, b1) :- Headers.Decode(b, 2);
    var (sig, b2) :- Take(b1, 64);
    var (dele, b3) :- DecodeDele(b2);
    if h.offsets != CERT_OFFSETS then Err(UnexpectedOffsets)
    else if h.tags != CERT_TAGS then Err(UnexpectedTags)
    else Ok((Certificate(sig, dele), b3))
  }

  lemma DeleHeaderInOrder()
    ensures Headers.OffsetsInOrder(DELE_OFFSETS) && Headers.TagsInOrder(DELE_TAGS)
  {
    Headers.OffsetsRise(DELE_OFFSETS);
    Headers.TagsRise(DELE_TAGS);
  }

  lemma CertHeaderInOrder()
    ensures Headers.OffsetsInOrder(CERT_OFFSETS) && Headers.TagsInOrder(CERT_TAGS)
  {
    Headers.TagsRise(CERT_TAGS);
  }

  lemma DeleParsePrinted(d: Delegation, rest: Bytes)
    ensures DecodeDele(EncodeDele(d) + rest) == Ok((d, rest))
  {
    var b4 := rest;
    var b3 := LE(d.maxt, 8) + b4;
    var b2 := LE(d.mint, 8) + b3;
    var b1 := d.pubk + b2;
    Follow4(Headers.Encode(DeleHeader()), d.pubk, LE(d.mint, 8), LE(d.maxt, 8), rest);
    DeleHeaderInOrder();
    Headers.ParsePrinted(DeleHeader(), 3, b1);
    TakeFront(d.pubk, b2);
    TakeFrontU64(d.mint, b3);
    TakeFrontU64(d.maxt, b4);
  }

  lemma DelePrintParsed(b: Bytes)
    requires DecodeDele(b).Ok?
    ensures var (d, rest) := DecodeDele(b).value; b == EncodeDele(d) + rest
  {
    var (d, rest) := DecodeDele(b).value;
    Headers.PrintParsed(b, 3);
    var (h, b1) := Headers.Decode(b, 3).value;
    var b2 := Take(b1, 32).value.1;
    var b3 := TakeU64(b2).value.1;
    WordsReprint(b2);
    WordsReprint(b3);
    assert h == DeleHeader() && b == Headers.Encode(h) + b1;
    assert b1 == d.pubk + b2 && b2 == LE(d.mint, 8) + b3 && b3 == LE(d.maxt, 8) + rest;
    Follow4(Headers.Encode(h), d.pubk, LE(d.mint, 8), LE(d.maxt, 8), rest);
  }

  /** Printing a certificate and parsing it back gives the certificate and leaves what follows it. */
  lemma CertParsePrinted(c: Certificate, rest: Bytes)
    ensures DecodeCert(EncodeCert(c) + rest) == Ok((c, rest))
  {
    var b2 := EncodeDele(c.dele) + rest;
    var b1 := c.sig + b2;
    Follow3(Headers.Encode(CertHeader()), c.sig, EncodeDele(c.dele), rest);
    CertHeaderInOrder();
    Headers.ParsePrinted(CertHeader(), 2, b1);
    TakeFront(c.sig, b2);
    DeleParsePrinted(c.dele, rest);
  }

  /** Printing a parsed certificate gives exactly the bytes it was parsed from. */
  lemma CertPrintParsed(b: Bytes)
    requires DecodeCert(b).Ok?
    ensures var (c, rest) := DecodeCert(b).value; b == EncodeCert(c) + rest
  {
    var (c, rest) := DecodeCert(b).value;
    Headers.PrintParsed(b, 2);
    var (h, b1) := Headers.Decode(b, 2).value;
    var b2 := Take(b1, 64).value.1;
    DelePrintParsed(b2);
    assert h == CertHeader() && b == Headers.Encode(h) + b1;
    assert b1 == c.sig + b2 && b2 == EncodeDele(c.dele) + rest;
    Follow3(Headers.Encode(h), c.sig, EncodeDele(c.dele), rest);
  }

  // ---- The cursor methods ----------------------------------------------------------------------

  method DeleFromWire(cursor: ParseCursor) returns (r: Result<Delegation, Error>)
    requires cursor.Valid()
    modifies cursor`position
    ensures cursor.Valid() && Agrees(DecodeDele(old(cursor.Tail())), r, cursor.Tail())
  {
    var h :- Headers.FromWire(3, cursor);
    var pubk :- cursor.TryGetFixed(32);
    var mint :- cursor.TryGetU64();
    var maxt :- cursor.TryGetU64();
    if h.offsets != DELE_OFFSETS {
      return Err(UnexpectedOffsets);
    }
    if h.tags != DELE_TAGS {
      return Err(UnexpectedTags);
    }
    return Ok(Delegation(pubk, mint, maxt));
  }

  method CertFromWire(cursor: ParseCursor) returns (r: Result<Certificate, Error>)
    requires cursor.Valid()
    modifies cursor`position
    ensures cursor.Valid() && Agrees(DecodeCert(old(cursor.Tail())), r, cursor.Tail())
  {
    var h :- Headers.FromWire(2, cursor);
    var sig :- cursor.TryGetFixed(64);
    var dele :- DeleFromWire(cursor);
    if h.offsets != CERT_OFFSETS {
      return Err(UnexpectedOffsets);
    }
    if h.tags != CERT_TAGS {
      return Err(UnexpectedTags);
    }
    return Ok(Certificate(sig, dele));
  }

  // ---- Printing; the fixed-size values are put with a check, the words are not --------------------

  /** What comes of printing a delegation into a given room. */
  function DeleRoom(room: nat): Result<(), Error> {
    if room < Headers.HeaderSize(3) then Err(BufferTooSmall(Headers.HeaderSize(3), room))
    else if room < Headers.HeaderSize(3) + 32 then Err(BufferTooSmall(32, room - Headers.HeaderSize(3)))
    else Ok(())
  }

  /** How many bytes are written before printing stops: with `<=` on what is written, this fixes what it is. */
  function DeleStop(room: nat): (n: nat)
    ensures DeleRoom(room).Ok? ==> n == DELE_SIZE
    ensures n <= DELE_SIZE
  {
    if room < Headers.HeaderSize(3) then 0
    else if room < Headers.HeaderSize(3) + 32 then Headers.HeaderSize(3)
    else DELE_SIZE
  }

  /** The unchecked puts of the two times panic in the source where only they are cut off. */
  predicate DelePutsFit(room: nat) {
    DeleRoom(room).Ok? ==> DELE_SIZE <= room
  }

  method DeleToWire(d: Delegation, cursor: ParseCursor) returns (r: Result<(), Error>)
    requires cursor.Valid() && DelePutsFit(cursor.Remaining())
    modifies cursor`position, cursor.buf
    ensures cursor.Valid() && cursor.Outside() == old(cursor.Outside())
    ensures r == DeleRoom(old(cursor.Remaining()))
    ensures cursor.Written() <= old(cursor.Written()) + EncodeDele(d)
    ensures cursor.Remaining() == old(cursor.Remaining()) - DeleStop(old(cursor.Remaining()))
    ensures r.Ok? ==> cursor.Written() == old(cursor.Written()) + EncodeDele(d)
  {
    ghost var written, head := cursor.Written(), Headers.Encode(DeleHeader());
    Begins(written, head, d.pubk + (LE(d.mint, 8) + LE(d.maxt, 8)));
    var _ :- Headers.ToWire(DeleHeader(), 3, cursor);
    var _ :- cursor.TryPutFixed(d.pubk);
    cursor.PutSlice(LE(d.mint, 8));
    cursor.PutSlice(LE(d.maxt, 8));
    Onto4(written, head, d.pubk, LE(d.mint, 8), LE(d.maxt, 8));
    return Ok(());
  }

  function CertRoom(room: nat): Result<(), Error> {
    if room < Headers.HeaderSize(2) then Err(BufferTooSmall(Headers.HeaderSize(2), room))
    else if room < Headers.HeaderSize(2) + 64 then Err(BufferTooSmall(64, room - Headers.HeaderSize(2)))
    else DeleRoom(room - (Headers.HeaderSize(2) + 64))
  }

  function CertStop(room: nat): (n: nat)
    ensures CertRoom(room).Ok? ==> n == CERT_SIZE
    ensures n <= CERT_SIZE
  {
    if room < Headers.HeaderSize(2) then 0
    else if room < Headers.HeaderSize(2) + 64 then Headers.HeaderSize(2)
    else Headers.HeaderSize(2) + 64 + DeleStop(room - (Headers.HeaderSize(2) + 64))
  }

  predicate CertPutsFit(room: nat) {
    CertRoom(room).Ok? ==> CERT_SIZE <= room
  }

  method CertToWire(c: Certificate, cursor: ParseCursor) returns (r: Result<(), Error>)
    requires cursor.Valid() && CertPutsFit(cursor.Remaining())
    modifies cursor`position, cursor.buf
    ensures cursor.Valid() && cursor.Outside() == old(cursor.Outside())
    ensures r == CertRoom(old(cursor.Remaining()))
    ensures cursor.Written() <= old(cursor.Written()) + EncodeCert(c)
    ensures cursor.Remaining() == old(cursor.Remaining()) - CertStop(old(cursor.Remaining()))
    ensures r.Ok? ==> cursor.Written() == old(cursor.Written()) + EncodeCert(c)
  {
    ghost var written, head := cursor.Written(), Headers.Encode(CertHeader());
    Begins(written, head, c.sig + EncodeDele(c.dele));
    Onto3(written, head, c.sig, EncodeDele(c.dele));
    var _ :- Headers.ToWire(CertHeader(), 2, cursor);
    var _ :- cursor.TryPutFixed(c.sig);
    r := DeleToWire(c.dele, cursor);
  }
}
