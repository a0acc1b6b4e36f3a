/** What is wrong with a message that is refused, on bytes: the first fault, with its place and its value. */
module PlainFaults {
  import opened Wrappers
  import opened Primitives
  import opened Cursors
  import opened Tags
  import opened Versions
  import opened WordLists
  import opened MerklePaths
  import opened PlainWire
  import opened Headers
  import Frames
  import Requests
  import SR = SignedResponses

  // ---- Frames ------------------------------------------------------------------------------------------

  /** Too short for the letters, other letters, too short for the length, lengths below 100, too few bytes: in this order. */
  lemma FrameFault(b: Bytes)
    ensures |b| < 8 ==> Frames.Unframe(b) == Err(BufferTooSmall(8, |b|))
    ensures |b| >= 8 && b[..8] != Ascii("ROUGHTIM") ==>
              exists magic: u64 :: b[..8] == BE(magic, 8) && Frames.Unframe(b) == Err(UnexpectedMagic(magic))
    ensures 8 <= |b| < 12 && b[..8] == Ascii("ROUGHTIM") ==> Frames.Unframe(b) == Err(BufferTooSmall(4, |b| - 8))
    ensures forall n: u32 :: |b| >= 12 && b[..8] == Ascii("ROUGHTIM") && b[8..12] == Word(n) ==>
              && (n < 100 || |b| - 12 < 100 ==> Frames.Unframe(b) == Err(UnexpectedFraming(if n < |b| - 12 then n else |b| - 12)))
              && (n >= 100 && 100 <= |b| - 12 < n ==> Frames.Unframe(b) == Err(BufferTooSmall(n, |b| - 12)))
  {
    if |b| >= 8 {
      var magic := TakeU64BE(b).value.0;
      WordsReprint(b);
      assert b[..8] == BE(magic, 8);
      MagicIsLetters();
      if magic != Frames.FRAME_MAGIC {
        MagicDiffers(magic);
      }
    }
    if |b| >= 12 {
      FrameHeadExactly(b, TakeU64BE(b).value.0, TakeU32(b[8..]).value.0);
    }
  }

  // ---- Lists of words ----------------------------------------------------------------------------------

  /** A list whose first items fit is refused for the first that does not. */
  lemma {:induction false} FirstFault<T(!new)>(codec: Codec<T>, read: seq<T>, items: seq<T>, rest: Bytes, k: nat)
    requires Sound(codec) && k < |items|
    requires Fit(codec, read, items[..k]) && codec.check(read + items[..k], items[k]).Err?
    ensures Read(codec, Print(codec, items) + rest, read, |read| + |items|) == Err(codec.check(read + items[..k], items[k]).error)
    decreases |items|
  {
    var later, longer := items[1..], read + [items[0]];
    var tail := Print(codec, later) + rest;
    Concat3(codec.put(items[0]), Print(codec, later), rest);
    assert TakesPrinted(codec, items[0], tail);
    if k == 0 {
      assert read + items[..0] == read;
    } else {
      assert items[..k][0] == items[0] && items[..k][1..] == later[..k - 1];
      assert longer + later[..k - 1] == read + items[..k];
      FirstFault(codec, longer, later, rest, k - 1);
    }
  }

  /** The first k offsets are in order. */
  ghost predicate RiseUpTo(offsets: seq<u32>, k: nat)
    requires k <= |offsets|
  {
    && (forall i :: 0 <= i < k ==> offsets[i] % 4 == 0)
    && (forall i :: 0 <= i < k - 1 ==> offsets[i] <= offsets[i + 1])
  }

  lemma OffsetsFit(front: seq<u32>)
    requires RiseUpTo(front, |front|)
    ensures Sound(OFFSETS) && Fit(OFFSETS, [], front)
  {
    hide Sound, Fit;
    OffsetCodecSound();
    OffsetsRise(front);
    assert [] + front == front;
    FitMeansInOrder(OFFSETS, [], front, Aligned, OffsetOrder);
  }

  lemma FrontRises(offsets: seq<u32>, k: nat)
    requires k <= |offsets| && RiseUpTo(offsets, k)
    ensures RiseUpTo(offsets[..k], k)
  {
  }

  lemma OffsetCheck(read: seq<u32>, value: u32)
    ensures value % 4 != 0 ==> OFFSETS.check(read, value) == Err(UnalignedOffset(|read|, value))
    ensures value % 4 == 0 && read != [] && value < read[|read| - 1] ==> OFFSETS.check(read, value) == Err(UnorderedOffset(|read|, value))
  {
  }

  /** Offset k, behind others in order, is no multiple of four, or below the one before. */
  lemma OffsetFault(offsets: seq<u32>, rest: Bytes, k: nat)
    requires k < |offsets| && RiseUpTo(offsets, k)
    ensures var r := Read(OFFSETS, WordsOf(offsets) + rest, [], |offsets|);
            && (offsets[k] % 4 != 0 ==> r == Err(UnalignedOffset(k, offsets[k])))
            && (offsets[k] % 4 == 0 && k > 0 && offsets[k] < offsets[k - 1] ==> r == Err(UnorderedOffset(k, offsets[k])))
  {
    hide Sound, Fit, Print, Read, WordsOf, RiseUpTo;
    var front := offsets[..k];
    FrontRises(offsets, k);
    OffsetsFit(front);
    OffsetsAreWords(offsets);
    OffsetCheck(front, offsets[k]);
    assert [] + front == front;
    if OFFSETS.check(front, offsets[k]).Err? {
      FirstFault(OFFSETS, [], offsets, rest, k);
    }
  }

  lemma TagsFit(front: seq<Tag>)
    requires TagsInOrder(front)
    ensures Sound(TAGS) && Fit(TAGS, [], front)
  {
    hide Sound, Fit;
    TagCodecSound();
    assert [] + front == front;
    FitMeansInOrder(TAGS, [], front, TagValid, TagOrder);
  }

  /** Tag k, behind others in order, is none, or is below the one before. */
  lemma TagFault(tags: seq<Tag>, rest: Bytes, k: nat)
    requires k < |tags| && TagsInOrder(tags[..k])
    ensures var r := Read(TAGS, Print(TAGS, tags) + rest, [], |tags|);
            && (!Known(tags[k]) ==> r == Err(InvalidTag(tags[k])))
            && (Known(tags[k]) && k > 0 && Numeric(tags[k]) < Numeric(tags[k - 1]) ==> r == Err(UnorderedTag(k, tags[k])))
  {
    hide Sound, Fit, Print, Read, Less, Numeric, TagsInOrder;
    var front := tags[..k];
    TagsFit(front);
    assert [] + front == front;
    if k > 0 {
      OrderIsNumeric(tags[k], tags[k - 1]);
    }
    if !Known(tags[k]) || (k > 0 && Numeric(tags[k]) < Numeric(tags[k - 1])) {
      FirstFault(TAGS, [], tags, rest, k);
    }
  }

  lemma VersionsFit(front: seq<u32>, ver: seq<ProtocolVersion>)
    requires Announces(front, ver)
    ensures Sound(VERSIONS) && Fit(VERSIONS, [], front)
  {
    hide Sound, Fit;
    VersionCodecSound();
    WordsAnnounce(front, ver);
    assert [] + front == front;
    FitMeansInOrder(VERSIONS, [], front, WordValid, WordOrder);
  }

  lemma VersionCheck(read: seq<u32>, ver: seq<ProtocolVersion>, word: u32)
    requires Announces(read, ver)
    ensures Meaning(word) == None ==> VERSIONS.check(read, word) == Err(InvalidVersion(word))
    ensures read != [] && Meaning(word) == Some(RfcDraft08) && ver[|read| - 1] == RfcDraft14 ==>
              VERSIONS.check(read, word) == Err(UnorderedVersion(|read|, 0x80000008))
  {
    assert read != [] ==> Meaning(read[|read| - 1]) == Some(ver[|read| - 1]);
  }

  /** Version word k, behind others in order, stands for none, or for an older version than the one before. */
  lemma VersionFault(words: seq<u32>, rest: Bytes, k: nat, ver: seq<ProtocolVersion>)
    requires k < |words| <= MAX_VERSIONS && Announces(words[..k], ver)
    ensures var r := DecodeVersions(WordsOf(words) + rest, |words|);
            && (Meaning(words[k]) == None ==> r == Err(InvalidVersion(words[k])))
            && (k > 0 && Meaning(words[k]) == Some(RfcDraft08) && ver[k - 1] == RfcDraft14 ==> r == Err(UnorderedVersion(k, 0x80000008)))
  {
    hide Sound, Fit, Print, Read, WordsOf, Announces, Meaning;
    var front := words[..k];
    VersionsFit(front, ver);
    VersionsAreWords(words);
    VersionCheck(front, ver, words[k]);
    assert [] + front == front;
    if VERSIONS.check(front, words[k]).Err? {
      FirstFault(VERSIONS, [], words, rest, k);
    }
  }

  // ---- Headers -------------------------------------------------------------------------------------------

  lemma HeaderLengths(offsets: seq<u32>, tags: seq<Tag>)
    ensures |WordsOf(offsets)| == 4 * |offsets| && |Print(TAGS, tags)| == 4 * |tags|
  {
    hide Print, WordsOf;
    OffsetCodecSound();
    TagCodecSound();
    OffsetsAreWords(offsets);
    PrintLength(OFFSETS, offsets);
    PrintLength(TAGS, tags);
  }

  /** What decides on a header that is long enough. */
  lemma HeaderUnfolds(count: u32, offsets: seq<u32>, tags: seq<Tag>, rest: Bytes, n: nat)
    requires 2 <= n < 0x1_0000_0000 && |offsets| == n - 1 && |tags| == n
    ensures var b2 := Print(TAGS, tags) + rest;
            var r, first := Decode(Word(count) + (WordsOf(offsets) + b2), n), Read(OFFSETS, WordsOf(offsets) + b2, [], n - 1);
            && (count != n ==> r == Err(MismatchedNumTags(n, count)))
            && (count == n && first.Err? ==> r == Err(first.error))
            && (count == n && first == Ok((offsets, b2)) && Read(TAGS, b2, [], n).Err? ==> r == Err(Read(TAGS, b2, [], n).error))
  {
    hide Print, WordsOf, Read, Word;
    var b1 := WordsOf(offsets) + (Print(TAGS, tags) + rest);
    LEIsWord(count);
    TakeFrontU32(count, b1);
    HeaderLengths(offsets, tags);
  }

  /** A header for n tags: another count, a faulty offset, and only then a faulty tag. */
  lemma HeaderFault(count: u32, offsets: seq<u32>, tags: seq<Tag>, rest: Bytes, n: nat, k: nat)
    requires 2 <= n < 0x1_0000_0000 && |offsets| == n - 1 && |tags| == n
    ensures var r := Decode(Word(count) + (WordsOf(offsets) + (Print(TAGS, tags) + rest)), n);
            && (count != n ==> r == Err(MismatchedNumTags(n, count)))
            && (count == n && k < n - 1 && RiseUpTo(offsets, k) ==>
                  && (offsets[k] % 4 != 0 ==> r == Err(UnalignedOffset(k, offsets[k])))
                  && (offsets[k] % 4 == 0 && k > 0 && offsets[k] < offsets[k - 1] ==> r == Err(UnorderedOffset(k, offsets[k]))))
            && (count == n && RiseUpTo(offsets, n - 1) && k < n && TagsInOrder(tags[..k]) ==>
                  && (!Known(tags[k]) ==> r == Err(InvalidTag(tags[k])))
                  && (Known(tags[k]) && k > 0 && Numeric(tags[k]) < Numeric(tags[k - 1]) ==> r == Err(UnorderedTag(k, tags[k]))))
  {
    hide Decode, Print, WordsOf, Read, Word, Numeric, TagsInOrder, Known;
    var b2 := Print(TAGS, tags) + rest;
    HeaderUnfolds(count, offsets, tags, rest, n);
    if k < n - 1 && RiseUpTo(offsets, k) {
      OffsetFault(offsets, b2, k);
    }
    if RiseUpTo(offsets, n - 1) && k < n && TagsInOrder(tags[..k]) {
      OffsetsAreWords(offsets);
      OffsetsRise(offsets);
      OffsetsParse(offsets, b2);
      TagFault(tags, rest, k);
    }
  }

  lemma ShortHeader(b: Bytes, n: nat)
    requires 2 <= n < 0x1_0000_0000 && |b| < 8 * n
    ensures Decode(b, n) == Err(BufferTooSmall(8 * n, |b|))
  {
  }

  /** The first offset beyond the values is the one that is reported. */
  lemma {:induction false} BoundsFault(offsets: seq<u32>, length: nat, k: nat, from: nat)
    requires from <= k < |offsets| && length < 0x1_0000_0000
    requires (forall i :: from <= i < k ==> offsets[i] <= length) && offsets[k] > length
    ensures CheckOffsetBounds(offsets, length, from) == Err(OutOfBoundsOffset(k, offsets[k]))
    decreases k - from
  {
    if from < k {
      BoundsFault(offsets, length, k, from + 1);
    }
  }

  // ---- Messages ---------------------------------------------------------------------------------------------

  /** A header of SREP in bounds: other tags, another layout, no versions: in this order. */
  lemma SrepFault(h: Header, length: nat)
    requires h.Sized(5) && OffsetsInOrder(h.offsets) && CheckOffsetBounds(h.offsets, length).Ok?
    ensures var r, laid := SR.CheckHead(h, length), h.offsets[0] == 4 && h.offsets[1] == 8 && h.offsets[2] == 16;
            && (h.tags != [VER, RADI, MIDP, VERS, ROOT] ==> r == Err(UnexpectedTags))
            && (h.tags == [VER, RADI, MIDP, VERS, ROOT] && !laid ==> r == Err(UnexpectedOffsets))
            && (h.tags == [VER, RADI, MIDP, VERS, ROOT] && laid && h.offsets[3] == 16 ==> r == Err(NoSupportedVersions))
  {
    var fixed := h.offsets[..3];
    assert fixed == [4, 8, 16] <==> fixed[0] == 4 && fixed[1] == 8 && fixed[2] == 16;
  }

  /** A PATH of n bytes: more than 32 hashes, no whole number of them, or cut off. */
  lemma PathFault(b: Bytes, n: nat)
    ensures n > 1024 ==> TakePath(b, n) == Err(BufferTooSmall(n, 1024))
    ensures n <= 1024 && n % 32 != 0 ==> TakePath(b, n) == Err(InvalidPathLength(n))
    ensures n <= 1024 && n % 32 == 0 && |b| < n ==> TakePath(b, n) == Err(BufferTooSmall(n, |b|))
  {
  }

  /** A request of another size, or with another number of tags than 3, 4 or 5. */
  lemma RequestFault(b: Bytes, count: u32, rest: Bytes)
    ensures |b| != 1012 ==> Requests.Decode(b) == Err(BadRequestSize(|b|))
    ensures |b| == 1012 && b == Word(count) + rest && count != 3 && count != 4 && count != 5 ==>
              Requests.Decode(b) == Err(InvalidRequestNumTags(count))
  {
    LEIsWord(count);
    TakeFrontU32(count, rest);
  }
}
