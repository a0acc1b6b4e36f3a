/** Protocol versions, ordered version lists and message types. */
module Versions {
  import opened Wrappers
  import opened Primitives
  import opened Cursors
  import opened WordLists

  datatype ProtocolVersion = RfcDraft08 | RfcDraft14 {

    function Number(): u32 {
      match this
      case RfcDraft08 => 0x80000008
      case RfcDraft14 => 0x8000000c
    }

    /** Context string of signatures on DELE; draft-08 has trailing dashes. */
    function DelePrefix(): (b: Bytes)
      ensures |b| == match this case RfcDraft08 => 36 case RfcDraft14 => 34
    {
      match this
      case RfcDraft08 => Ascii("RoughTime v1 delegation signature--") + [0]
      case RfcDraft14 => Ascii("RoughTime v1 delegation signature") + [0]
    }

    /** Context string of signatures on SREP, the same for both drafts. */
    function SrepPrefix(): (b: Bytes)
      ensures |b| == 32
    {
      Ascii("RoughTime v1 response signature") + [0]
    }
  }

  const MAX_VERSIONS: nat := 32

  /** A version list never holds more than 32 versions. */
  type VersionList = v: seq<ProtocolVersion> | |v| <= MAX_VERSIONS

  /** 0 is the legacy number of draft-08. */
  function VersionOf(value: u32): Result<ProtocolVersion, Error> {
    if value == 0x00000000 || value == 0x80000008 then Ok(RfcDraft08)
    else if value == 0x8000000c then Ok(RfcDraft14)
    else Err(InvalidVersion(value))
  }

  function DecodeVersion(b: Bytes): Parse<ProtocolVersion> {
    var (value, rest) :- TakeU32(b);
    var version :- VersionOf(value);
    Ok((version, rest))
  }

  function EncodeVersion(v: ProtocolVersion): (b: Bytes)
    ensures |b| == 4
  {
    LE(v.Number(), 4)
  }

  lemma VersionParsePrinted(v: ProtocolVersion, rest: Bytes)
    ensures DecodeVersion(EncodeVersion(v) + rest) == Ok((v, rest))
  {
    TakeFrontU32(v.Number(), rest);
  }

  /** A parsed version reprints to its bytes unless they were the legacy zero. */
  lemma VersionPrintParsed(b: Bytes)
    requires DecodeVersion(b).Ok?
    ensures var (v, rest) := DecodeVersion(b).value;
            && |b| >= 4 && rest == b[4..]
            && (b == EncodeVersion(v) + rest <==> TakeU32(b).value.0 != 0)
  {
    var (v, rest) := DecodeVersion(b).value;
    WordsReprint(b);
    var word := TakeU32(b).value.0;
    if word == 0 {
      U32RoundTrip(v.Number());
      assert TakeU32(EncodeVersion(v) + rest) == Ok((v.Number(), rest)) by { TakeFrontU32(v.Number(), rest); }
    }
  }

  // ---- Version lists -------------------------------------------------------------------------

  /** The version a version word stands for. */
  function Canon(word: u32): ProtocolVersion {
    if word == 0x8000000c then RfcDraft14 else RfcDraft08
  }

  function CanonAll(words: seq<u32>): (vs: seq<ProtocolVersion>)
    ensures |vs| == |words|
    ensures forall i :: 0 <= i < |words| ==> vs[i] == Canon(words[i])
  {
    seq(|words|, i requires 0 <= i < |words| => Canon(words[i]))
  }

  function Numbers(vs: seq<ProtocolVersion>): (words: seq<u32>)
    ensures |words| == |vs|
    ensures forall i :: 0 <= i < |vs| ==> words[i] == vs[i].Number()
  {
    seq<u32>(|vs|, i requires 0 <= i < |vs| => vs[i].Number())
  }

  /** Versions ascend; repeats are let through. */
  function CheckVersion(read: seq<u32>, word: u32): Result<(), Error> {
    var version :- VersionOf(word);
    if read != [] && version.Number() < Canon(read[|read| - 1]).Number()
    then Err(UnorderedVersion(|read|, version.Number()))
    else Ok(())
  }

  function PutWord(value: u32): Bytes { LE(value, 4) }

  const VERSIONS: Codec<u32> := Codec(PutWord, TakeU32, CheckVersion)

  function EncodeVersions(vs: seq<ProtocolVersion>): Bytes {
    Print(VERSIONS, Numbers(vs))
  }

  /** How many versions are read from n bytes before the loop stops. */
  function VersionCount(n: nat): (count: nat)
    ensures count <= MAX_VERSIONS
  {
    if n / 4 < MAX_VERSIONS then n / 4 else MAX_VERSIONS
  }

  function DecodeVersions(b: Bytes, count: nat): Parse<VersionList>
    requires count <= MAX_VERSIONS
  {
    var (words, rest) :- Read(VERSIONS, b, [], count);
    WordsPrint(b, count);
    Ok((CanonAll(words), rest))
  }

  predicate WordValid(word: u32) { VersionOf(word).Ok? }

  function WordOrder(x: u32, y: u32): bool { Canon(x).Number() <= Canon(y).Number() }

  ghost predicate Ascending(vs: seq<ProtocolVersion>) {
    forall i, j :: 0 <= i < j < |vs| ==> vs[i].Number() <= vs[j].Number()
  }

  lemma VersionCodecSound()
    ensures Sound(VERSIONS) && ChecksOrder(VERSIONS, WordValid, WordOrder) && Transitive(WordOrder)
    ensures forall b :: Reprints(VERSIONS, b)
  {
    forall item: u32, rest
      ensures TakesPrinted(VERSIONS, item, rest)
    {
      TakeFrontU32(item, rest);
    }
    forall b
      ensures Reprints(VERSIONS, b)
    {
      WordsReprint(b);
    }
  }

  lemma VersionsLength(vs: seq<ProtocolVersion>)
    ensures |EncodeVersions(vs)| == Quad(|vs|)
  {
    VersionCodecSound();
    PrintLength(VERSIONS, Numbers(vs));
  }

  lemma CanonNumbers(vs: seq<ProtocolVersion>)
    ensures CanonAll(Numbers(vs)) == vs
    ensures InOrder(Numbers(vs), WordValid, WordOrder) <==> Ascending(vs)
  {
    var words := Numbers(vs);
    if Ascending(vs) {
      assert forall i, j :: 0 <= i < j < |words| ==> WordOrder(words[i], words[j]);
    }
    if InOrder(words, WordValid, WordOrder) {
      forall i, j | 0 <= i < j < |vs|
        ensures vs[i].Number() <= vs[j].Number()
      {
        assert WordOrder(words[i], words[j]);
      }
    }
  }

  lemma WordsParse(words: seq<u32>, rest: Bytes)
    ensures var r := Read(VERSIONS, Print(VERSIONS, words) + rest, [], |words|);
            if InOrder(words, WordValid, WordOrder) then r == Ok((words, rest)) else r.Err?
  {
    VersionCodecSound();
    ReadPrinted(VERSIONS, [], words, |words|, rest);
    FitMeansInOrder(VERSIONS, [], words, WordValid, WordOrder);
    assert [] + words == words;
  }

  /** A printed list of the announced length comes back exactly when it ascends. */
  lemma VersionsParsePrinted(vs: seq<ProtocolVersion>, count: nat, rest: Bytes)
    requires |vs| == count <= MAX_VERSIONS
    ensures var r := DecodeVersions(EncodeVersions(vs) + rest, count);
            if Ascending(vs) then r == Ok((vs, rest)) else r.Err?
  {
    WordsParse(Numbers(vs), rest);
    CanonNumbers(vs);
  }

  /** The version words in front of `b`, as they were sent. */
  function VersionWords(b: Bytes, count: nat): seq<u32> {
    match Read(VERSIONS, b, [], count)
    case Ok(parsed) => parsed.0
    case Err(_) => []
  }

  lemma WordsPrint(b: Bytes, count: nat)
    requires Read(VERSIONS, b, [], count).Ok?
    ensures var (words, rest) := Read(VERSIONS, b, [], count).value;
            |words| == count && InOrder(words, WordValid, WordOrder) && b == Print(VERSIONS, words) + rest
  {
    VersionCodecSound();
    PrintRead(VERSIONS, b, [], count);
    var words := Read(VERSIONS, b, [], count).value.0;
    assert words[0..] == words && [] + words == words;
    FitMeansInOrder(VERSIONS, [], words, WordValid, WordOrder);
  }

  /** A parsed list ascends and reprints to its bytes exactly when no version word was the legacy zero. */
  lemma VersionsPrintParsed(b: Bytes, count: nat)
    requires count <= MAX_VERSIONS && DecodeVersions(b, count).Ok?
    ensures var (vs, rest) := DecodeVersions(b, count).value;
            && |vs| == count && Ascending(vs) && |b| == Quad(count) + |rest|
            && (b == EncodeVersions(vs) + rest <==> 0 !in VersionWords(b, count))
  {
    var (words, rest) := Read(VERSIONS, b, [], count).value;
    WordsPrint(b, count);
    WordsAscend(words);
    LegacyReprint(words);
    SameBack(EncodeVersions(CanonAll(words)), Print(VERSIONS, words), rest);
  }

  lemma VersionsRest(b: Bytes, count: nat)
    requires count <= MAX_VERSIONS && DecodeVersions(b, count).Ok?
    ensures |b| >= Quad(count) && DecodeVersions(b, count).value.1 == b[Quad(count)..]
  {
    WordsPrint(b, count);
    WordsLength(VersionWords(b, count));
  }

  lemma WordsAscend(words: seq<u32>)
    requires InOrder(words, WordValid, WordOrder)
    ensures Ascending(CanonAll(words))
  {
    var vs := CanonAll(words);
    forall i, j | 0 <= i < j < |vs|
      ensures vs[i].Number() <= vs[j].Number()
    {
      assert WordOrder(words[i], words[j]);
    }
  }

  lemma LegacyReprint(words: seq<u32>)
    requires InOrder(words, WordValid, WordOrder)
    ensures EncodeVersions(CanonAll(words)) == Print(VERSIONS, words) <==> 0 !in words
    ensures |EncodeVersions(CanonAll(words))| == |Print(VERSIONS, words)| == Quad(|words|)
  {
    var numbers := Numbers(CanonAll(words));
    WordsLength(words);
    WordsLength(numbers);
    if numbers != words && Print(VERSIONS, numbers) == Print(VERSIONS, words) {
      PrintInjective(numbers, words);
    }
    Renumbered(words);
  }

  lemma Renumbered(words: seq<u32>)
    requires forall i :: 0 <= i < |words| ==> WordValid(words[i])
    ensures Numbers(CanonAll(words)) == words <==> 0 !in words
  {
    var numbers := Numbers(CanonAll(words));
    if 0 in words {
      var i :| 0 <= i < |words| && words[i] == 0;
      assert numbers[i] != 0;
    }
  }

  lemma WordsLength(words: seq<u32>)
    ensures |Print(VERSIONS, words)| == Quad(|words|)
  {
    VersionCodecSound();
    PrintLength(VERSIONS, words);
  }

  lemma {:induction false} PrintInjective(a: seq<u32>, b: seq<u32>)
    requires |a| == |b| && Print(VERSIONS, a) == Print(VERSIONS, b)
    ensures a == b
  {
    if a != [] {
      var x, y := Print(VERSIONS, a[1..]), Print(VERSIONS, b[1..]);
      TakeFrontU32(a[0], x);
      TakeFrontU32(b[0], y);
      PrintInjective(a[1..], b[1..]);
      assert a == [a[0]] + a[1..] && b == [b[0]] + b[1..];
    }
  }

  // ---- Message types -------------------------------------------------------------------------

  datatype MessageType = Request | Response {

    function Number(): u32 {
      match this
      case Request => 0x00000000
      case Response => 0x00000001
    }
  }

  function DecodeType(b: Bytes): Parse<MessageType> {
    var (value, rest) :- TakeU32(b);
    if value == 0x00000000 then Ok((MessageType.Request, rest))
    else if value == 0x00000001 then Ok((MessageType.Response, rest))
    else Err(InvalidMessageType(value))
  }

  function EncodeType(t: MessageType): (b: Bytes)
    ensures |b| == 4
  {
    LE(t.Number(), 4)
  }

  lemma TypeRoundTrip(t: MessageType, rest: Bytes, b: Bytes)
    ensures DecodeType(EncodeType(t) + rest) == Ok((t, rest))
    ensures DecodeType(b).Ok? ==> b == EncodeType(DecodeType(b).value.0) + DecodeType(b).value.1
  {
    TakeFrontU32(t.Number(), rest);
    WordsReprint(b);
  }

  // ---- The cursor methods ----------------------------------------------------------------------

  method GetVersion(cursor: ParseCursor) returns (r: Result<ProtocolVersion, Error>)
    requires cursor.Valid()
    modifies cursor`position
    ensures cursor.Valid() && Agrees(DecodeVersion(old(cursor.Tail())), r, cursor.Tail())
  {
    var value :- cursor.TryGetU32();
    r := VersionOf(value);
  }

  method GetType(cursor: ParseCursor) returns (r: Result<MessageType, Error>)
    requires cursor.Valid()
    modifies cursor`position
    ensures cursor.Valid() && Agrees(DecodeType(old(cursor.Tail())), r, cursor.Tail())
  {
    var value :- cursor.TryGetU32();
    if value == 0x00000000 {
      return Ok(MessageType.Request);
    } else if value == 0x00000001 {
      return Ok(MessageType.Response);
    }
    return Err(InvalidMessageType(value));
  }

  method PutVersions(vs: seq<ProtocolVersion>, cursor: ParseCursor)
    requires cursor.Valid() && Quad(|vs|) <= cursor.Remaining()
    modifies cursor`position, cursor.buf
    ensures cursor.Valid() && cursor.Outside() == old(cursor.Outside())
    ensures cursor.Written() == old(cursor.Written()) + EncodeVersions(vs)
    ensures cursor.Remaining() == old(cursor.Remaining()) - Quad(|vs|)
  {
    ghost var words := Numbers(vs);
    ghost var whole, room := cursor.Written() + Print(VERSIONS, words), cursor.Remaining();
    for i := 0 to |vs|
      invariant cursor.Valid() && cursor.Outside() == old(cursor.Outside())
      invariant whole == cursor.Written() + Print(VERSIONS, words[i..])
      invariant cursor.Remaining() + Quad(i) == room
    {
      assert words[i..][1..] == words[i + 1..];
      Concat3(cursor.Written(), LE(words[i], 4), Print(VERSIONS, words[i + 1..]));
      cursor.PutSlice(LE(vs[i].Number(), 4));
    }
  }

  /** How many versions the parse loop asks for; where n is no multiple of four, one more than n holds. */
  function AskedVersions(n: nat): (count: nat)
    ensures count <= MAX_VERSIONS
    ensures n % 4 == 0 ==> count == VersionCount(n)
  {
    if (n + 3) / 4 < MAX_VERSIONS then (n + 3) / 4 else MAX_VERSIONS
  }

  /**
    The bounded parse loop. Its countdown underflows in the source exactly when n is no multiple of
    four, is below 128, and every version it asks for is there and in order.
  */
  method GetVersions(n: nat, cursor: ParseCursor) returns (r: Result<VersionList, Error>)
    requires cursor.Valid()
    requires n % 4 == 0 || n >= 128 || DecodeVersions(cursor.Tail(), AskedVersions(n)).Err?
    modifies cursor`position
    ensures cursor.Valid() && Agrees(DecodeVersions(old(cursor.Tail()), AskedVersions(n)), r, cursor.Tail())
  {
    ghost var start, count, words: seq<u32> := cursor.Tail(), AskedVersions(n), [];
    var remaining, versions: seq<ProtocolVersion>, prior: Option<ProtocolVersion> := n, [], None;
    while remaining > 0 && |versions| < MAX_VERSIONS
      invariant cursor.Valid() && versions == CanonAll(words) && |words| <= count
      invariant n == remaining + 4 * |versions|
      invariant prior == if words == [] then None else Some(Canon(words[|words| - 1]))
      invariant Read(VERSIONS, start, [], count) == Read(VERSIONS, cursor.Tail(), words, count)
      decreases remaining
    {
      ghost var tail := cursor.Tail();
      var version :- GetVersion(cursor);
      if prior.Some? && version.Number() < prior.value.Number() {
        return Err(UnorderedVersion(|versions|, version.Number()));
      }
      prior := Some(version);
      words := words + [TakeU32(tail).value.0];
      versions := versions + [version];
      remaining := remaining - 4;
    }
    return Ok(versions);
  }
}
