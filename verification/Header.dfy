/** Message headers with any number of tags: a count, the offsets and the tags. */
module Headers {
  import opened Wrappers
  import opened Primitives
  import opened Cursors
  import opened Tags
  import opened WordLists

  datatype Header = Header(offsets: seq<u32>, tags: seq<Tag>) {

    /** The header type with n tags. */
    predicate Sized(n: nat) {
      2 <= n < 0x1_0000_0000 && |tags| == n && |offsets| == n - 1
    }
  }

  function HeaderSize(n: nat): nat { Quad(n) + Quad(n) }

  predicate Aligned(value: u32) { value % 4 == 0 }

  /** The running checks of the two parse loops; the first offset is compared with 0, the first tag with INVALID. */
  function CheckOffset(read: seq<u32>, value: u32): Result<(), Error> {
    if !Aligned(value) then Err(UnalignedOffset(|read|, value))
    else if value < (if read == [] then 0 else read[|read| - 1]) then Err(UnorderedOffset(|read|, value))
    else Ok(())
  }

  function CheckTag(read: seq<Tag>, value: u32): Result<(), Error> {
    var tag :- TryFrom(value);
    if Less(tag, if read == [] then INVALID else read[|read| - 1]) then Err(UnorderedTag(|read|, value))
    else Ok(())
  }

  function PutOffset(value: u32): Bytes { LE(value, 4) }

  const OFFSETS: Codec<u32> := Codec(PutOffset, TakeU32, CheckOffset)
  const TAGS: Codec<Tag> := Codec(WireValue, TakeU32BE, CheckTag)

  function Encode(h: Header): Bytes
    requires |h.tags| < 0x1_0000_0000
  {
    LE(|h.tags|, 4) + (Print(OFFSETS, h.offsets) + Print(TAGS, h.tags))
  }

  function Decode(b: Bytes, n: nat): Parse<Header>
    requires 2 <= n < 0x1_0000_0000
  {
    if |b| < HeaderSize(n) then Err(BufferTooSmall(HeaderSize(n), |b|))
    else
      var (numTags, b1) :- TakeU32(b);
      if numTags != n then Err(MismatchedNumTags(n, numTags))
      else
        var (offsets, b2) :- Read(OFFSETS, b1, [], n - 1);
        var (tags, b3) :- Read(TAGS, b2, [], n);
        Ok((Header(offsets, tags), b3))
  }

  /** The first offset beyond the values, which are `totalLen` bytes long; the length is cast to u32. */
  function CheckOffsetBounds(offsets: seq<u32>, totalLen: nat, from: nat := 0): Result<(), Error>
    requires from <= |offsets|
    decreases |offsets| - from
  {
    if from == |offsets| then Ok(())
    else if offsets[from] > totalLen % 0x1_0000_0000 then Err(OutOfBoundsOffset(from, offsets[from]))
    else CheckOffsetBounds(offsets, totalLen, from + 1)
  }

  // ---- What a parse accepts ------------------------------------------------------------------

  function OffsetOrder(x: u32, y: u32): bool { x <= y }

  predicate TagValid(tag: Tag) { Known(tag) }

  /** Order of tags as numbers of the protocol. */
  function TagOrder(x: Tag, y: Tag): bool { Numeric(x) <= Numeric(y) }

  /** Offsets are multiples of four and never decrease. */
  ghost predicate OffsetsInOrder(offsets: seq<u32>) {
    InOrder(offsets, Aligned, OffsetOrder)
  }

  /** Tags are valid and never decrease as numbers (section 4.2 of draft-ietf-ntp-roughtime-14). */
  ghost predicate TagsInOrder(tags: seq<Tag>) {
    InOrder(tags, TagValid, TagOrder)
  }

  /** Both tags are known, and the last letters of their names decide that `a` comes first. */
  predicate Rises(a: Tag, b: Tag) {
    && Known(a) && Known(b)
    && (a % 256 < b % 256 || (a % 256 == b % 256 && (a / 256) % 256 < (b / 256) % 256))
  }

  predicate RisesAt(tags: seq<Tag>, i: nat)
    requires i + 1 < |tags|
  {
    Rises(tags[i], tags[i + 1])
  }

  /** Tags whose last letters rise from each to the next are in order. */
  lemma TagsRise(tags: seq<Tag>)
    requires |tags| > 1 && forall i :: 0 <= i < |tags| - 1 ==> RisesAt(tags, i)
    ensures TagsInOrder(tags)
  {
    StepsMeanInOrder(tags, TagValid, TagOrder);
    forall i | 0 <= i < |tags| - 1
      ensures StepAt(tags, TagOrder, i)
    {
      assert RisesAt(tags, i);
      LastLettersDecide(tags[i], tags[i + 1]);
    }
    forall i | 0 <= i < |tags|
      ensures TagValid(tags[i])
    {
      assert RisesAt(tags, if i == 0 then 0 else i - 1);
    }
  }

  /** Offsets are in order when all are multiples of four and none is below the one before. */
  lemma OffsetsRise(offsets: seq<u32>)
    ensures OffsetsInOrder(offsets) <==>
            && (forall i :: 0 <= i < |offsets| ==> Aligned(offsets[i]))
            && (forall i :: 0 <= i < |offsets| - 1 ==> offsets[i] <= offsets[i + 1])
  {
    StepsMeanInOrder(offsets, Aligned, OffsetOrder);
    assert forall i :: 0 <= i < |offsets| - 1 ==> StepAt(offsets, OffsetOrder, i) == (offsets[i] <= offsets[i + 1]);
  }

  lemma OffsetCodecSound()
    ensures Sound(OFFSETS) && ChecksOrder(OFFSETS, Aligned, OffsetOrder) && Transitive(OffsetOrder)
    ensures forall b :: Reprints(OFFSETS, b)
  {
    forall item: u32, rest
      ensures TakesPrinted(OFFSETS, item, rest)
    {
      TakeFrontU32(item, rest);
    }
    forall b
      ensures Reprints(OFFSETS, b)
    {
      WordsReprint(b);
    }
  }

  lemma TagCodecSound()
    ensures Sound(TAGS) && ChecksOrder(TAGS, TagValid, TagOrder) && Transitive(TagOrder)
    ensures forall b :: Reprints(TAGS, b)
  {
    forall item: Tag, rest
      ensures TakesPrinted(TAGS, item, rest)
    {
      TakeFrontU32BE(item, rest);
    }
    forall read: seq<Tag>, tag: Tag
      ensures TAGS.check(read, tag).Ok? <==> TagValid(tag) && (read == [] || TagOrder(read[|read| - 1], tag))
    {
      InvalidIsLeast(tag);
      if read != [] {
        OrderIsNumeric(tag, read[|read| - 1]);
      }
    }
    forall b
      ensures Reprints(TAGS, b)
    {
      WordsReprint(b);
    }
  }

  lemma EncodedLength(h: Header, n: nat)
    requires h.Sized(n)
    ensures |Encode(h)| == HeaderSize(n)
  {
    OffsetCodecSound();
    TagCodecSound();
    PrintLength(OFFSETS, h.offsets);
    PrintLength(TAGS, h.tags);
  }

  // ---- Parse after print, print after parse ----------------------------------------------------

  lemma OffsetsParse(offsets: seq<u32>, rest: Bytes)
    ensures var r := Read(OFFSETS, Print(OFFSETS, offsets) + rest, [], |offsets|);
            if OffsetsInOrder(offsets) then r == Ok((offsets, rest)) else r.Err?
  {
    OffsetCodecSound();
    ReadPrinted(OFFSETS, [], offsets, |offsets|, rest);
    FitMeansInOrder(OFFSETS, [], offsets, Aligned, OffsetOrder);
    assert [] + offsets == offsets;
  }

  lemma TagsParse(tags: seq<Tag>, rest: Bytes)
    ensures var r := Read(TAGS, Print(TAGS, tags) + rest, [], |tags|);
            if TagsInOrder(tags) then r == Ok((tags, rest)) else r.Err?
  {
    TagCodecSound();
    ReadPrinted(TAGS, [], tags, |tags|, rest);
    FitMeansInOrder(TAGS, [], tags, TagValid, TagOrder);
    assert [] + tags == tags;
  }

  /** A printed header is accepted back, unchanged, exactly when its offsets and tags are in order. */
  lemma ParsePrinted(h: Header, n: nat, rest: Bytes)
    requires h.Sized(n)
    ensures var r := Decode(Encode(h) + rest, n);
            if OffsetsInOrder(h.offsets) && TagsInOrder(h.tags) then r == Ok((h, rest)) else r.Err?
  {
    var afterOffsets := Print(TAGS, h.tags) + rest;
    var afterCount := Print(OFFSETS, h.offsets) + afterOffsets;
    EncodedLength(h, n);
    assert Encode(h) + rest == LE(n, 4) + afterCount;
    TakeFrontU32(n, afterCount);
    OffsetsParse(h.offsets, afterOffsets);
    TagsParse(h.tags, rest);
  }

  lemma OffsetsPrint(b: Bytes, count: nat)
    requires Read(OFFSETS, b, [], count).Ok?
    ensures var (offsets, rest) := Read(OFFSETS, b, [], count).value;
            |offsets| == count && OffsetsInOrder(offsets) && b == Print(OFFSETS, offsets) + rest
  {
    OffsetCodecSound();
    PrintRead(OFFSETS, b, [], count);
    var offsets := Read(OFFSETS, b, [], count).value.0;
    assert offsets[0..] == offsets && [] + offsets == offsets;
    FitMeansInOrder(OFFSETS, [], offsets, Aligned, OffsetOrder);
  }

  lemma TagsPrint(b: Bytes, count: nat)
    requires Read(TAGS, b, [], count).Ok?
    ensures var (tags, rest) := Read(TAGS, b, [], count).value;
            |tags| == count && TagsInOrder(tags) && b == Print(TAGS, tags) + rest
  {
    TagCodecSound();
    PrintRead(TAGS, b, [], count);
    var tags := Read(TAGS, b, [], count).value.0;
    assert tags[0..] == tags && [] + tags == tags;
    FitMeansInOrder(TAGS, [], tags, TagValid, TagOrder);
  }

  /** Printing an accepted header reproduces the bytes it was parsed from. */
  lemma PrintParsed(b: Bytes, n: nat)
    requires 2 <= n < 0x1_0000_0000 && Decode(b, n).Ok?
    ensures var (h, rest) := Decode(b, n).value;
            h.Sized(n) && OffsetsInOrder(h.offsets) && TagsInOrder(h.tags) && b == Encode(h) + rest
  {
    var (h, rest) := Decode(b, n).value;
    var b1 := TakeU32(b).value.1;
    var b2 := Read(OFFSETS, b1, [], n - 1).value.1;
    assert b == LE(n, 4) + b1 by { WordsReprint(b); }
    OffsetsPrint(b1, n - 1);
    TagsPrint(b2, n);
    assert |h.offsets| == n - 1 && |h.tags| == n;
    assert b1 == Print(OFFSETS, h.offsets) + b2;
    assert b2 == Print(TAGS, h.tags) + rest;
    Follow3(LE(n, 4), Print(OFFSETS, h.offsets), Print(TAGS, h.tags), rest);
  }

  /** The number of tags comes first. */
  lemma CountInFront(h: Header, rest: Bytes)
    requires |h.tags| < 0x1_0000_0000
    ensures TakeU32(Encode(h) + rest).Ok? && TakeU32(Encode(h) + rest).value.0 == |h.tags|
  {
    var afterCount := Print(OFFSETS, h.offsets) + Print(TAGS, h.tags);
    Follow2(LE(|h.tags|, 4), afterCount, rest);
    TakeFrontU32(|h.tags|, afterCount + rest);
  }

  lemma DecodedFacts(b: Bytes, n: nat)
    requires 2 <= n < 0x1_0000_0000
    ensures Decode(b, n).Ok? ==> Decode(b, n).value.0.Sized(n) && OffsetsInOrder(Decode(b, n).value.0.offsets)
  {
    if Decode(b, n).Ok? {
      PrintParsed(b, n);
    }
  }

  /** The bounds check passes exactly when the largest offset, the last one, is within the values. */
  lemma {:induction false} BoundsMeanLast(offsets: seq<u32>, totalLen: nat, from: nat)
    requires OffsetsInOrder(offsets) && from < |offsets|
    ensures CheckOffsetBounds(offsets, totalLen, from).Ok? <==> offsets[|offsets| - 1] <= totalLen % 0x1_0000_0000
    decreases |offsets| - from
  {
    if from + 1 < |offsets| {
      assert OffsetOrder(offsets[from], offsets[|offsets| - 1]);
      BoundsMeanLast(offsets, totalLen, from + 1);
    }
  }

  // ---- The cursor methods ----------------------------------------------------------------------

  method ToWire(h: Header, n: nat, cursor: ParseCursor) returns (r: Result<(), Error>)
    requires h.Sized(n) && cursor.Valid()
    modifies cursor`position, cursor.buf
    ensures cursor.Valid() && cursor.Outside() == old(cursor.Outside())
    ensures r.Ok? <==> HeaderSize(n) <= old(cursor.Remaining())
    ensures r.Ok? ==> cursor.Written() == old(cursor.Written()) + Encode(h)
    ensures r.Ok? ==> cursor.Remaining() == old(cursor.Remaining()) - HeaderSize(n)
    ensures r.Err? ==> r.error == BufferTooSmall(HeaderSize(n), old(cursor.Remaining()))
    ensures r.Err? ==> cursor.Written() == old(cursor.Written()) && cursor.Remaining() == old(cursor.Remaining())
  {
    if cursor.Remaining() < HeaderSize(n) {
      return Err(BufferTooSmall(HeaderSize(n), cursor.Remaining()));
    }
    ghost var written := cursor.Written();
    OffsetCodecSound();
    TagCodecSound();
    cursor.PutSlice(LE(n, 4));
    PutAll(OFFSETS, h.offsets, cursor);
    PutAll(TAGS, h.tags, cursor);
    assert cursor.Written() == written + Encode(h);
    return Ok(());
  }

  /** The printing loops over offsets and tags. */
  method PutAll(codec: Codec<u32>, items: seq<u32>, cursor: ParseCursor)
    requires Sound(codec) && cursor.Valid() && Quad(|items|) <= cursor.Remaining()
    modifies cursor`position, cursor.buf
    ensures cursor.Valid() && cursor.Outside() == old(cursor.Outside())
    ensures cursor.Written() == old(cursor.Written()) + Print(codec, items)
    ensures cursor.Remaining() == old(cursor.Remaining()) - Quad(|items|)
  {
    ghost var whole, room := cursor.Written() + Print(codec, items), cursor.Remaining();
    for i := 0 to |items|
      invariant cursor.Valid() && cursor.Outside() == old(cursor.Outside())
      invariant whole == cursor.Written() + Print(codec, items[i..])
      invariant cursor.Remaining() + Quad(i) == room
    {
      assert items[i..][1..] == items[i + 1..];
      Concat3(cursor.Written(), codec.put(items[i]), Print(codec, items[i + 1..]));
      cursor.PutSlice(codec.put(items[i]));
    }
  }

  method FromWire(n: nat, cursor: ParseCursor) returns (r: Result<Header, Error>)
    requires 2 <= n < 0x1_0000_0000 && cursor.Valid()
    modifies cursor`position
    ensures cursor.Valid() && Agrees(Decode(old(cursor.Tail()), n), r, cursor.Tail())
  {
    if cursor.Remaining() < HeaderSize(n) {
      return Err(BufferTooSmall(HeaderSize(n), cursor.Remaining()));
    }
    var got := cursor.TryGetU32();
    match got
    case Err(error) => return Err(error);
    case Ok(numTags) =>
      if numTags != n {
        return Err(MismatchedNumTags(n, numTags));
      }
      var offsets :- GetOffsets(n - 1, cursor);
      var tags :- GetTags(n, cursor);
      return Ok(Header(offsets, tags));
  }

  method GetOffsets(count: nat, cursor: ParseCursor) returns (r: Result<seq<u32>, Error>)
    requires cursor.Valid()
    modifies cursor`position
    ensures cursor.Valid() && Agrees(Read(OFFSETS, old(cursor.Tail()), [], count), r, cursor.Tail())
  {
    ghost var start := cursor.Tail();
    var offsets: seq<u32>, priorOffset: u32 := [], 0;
    while |offsets| < count
      invariant cursor.Valid() && |offsets| <= count
      invariant priorOffset == if offsets == [] then 0 else offsets[|offsets| - 1]
      invariant Read(OFFSETS, start, [], count) == Read(OFFSETS, cursor.Tail(), offsets, count)
    {
      var value :- cursor.TryGetU32();
      if value % 4 != 0 {
        return Err(UnalignedOffset(|offsets|, value));
      }
      if value < priorOffset {
        return Err(UnorderedOffset(|offsets|, value));
      }
      offsets := offsets + [value];
      priorOffset := value;
    }
    return Ok(offsets);
  }

  method GetTags(count: nat, cursor: ParseCursor) returns (r: Result<seq<Tag>, Error>)
    requires cursor.Valid()
    modifies cursor`position
    ensures cursor.Valid() && Agrees(Read(TAGS, old(cursor.Tail()), [], count), r, cursor.Tail())
  {
    ghost var start := cursor.Tail();
    var tags: seq<Tag>, priorTag := [], INVALID;
    while |tags| < count
      invariant cursor.Valid() && |tags| <= count
      invariant priorTag == if tags == [] then INVALID else tags[|tags| - 1]
      invariant Read(TAGS, start, [], count) == Read(TAGS, cursor.Tail(), tags, count)
    {
      var value :- cursor.TryGetU32BE();
      var tag :- TryFrom(value);
      if Less(tag, priorTag) {
        return Err(UnorderedTag(|tags|, value));
      }
      tags := tags + [tag];
      priorTag := tag;
    }
    return Ok(tags);
  }
}
