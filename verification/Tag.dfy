/** The tags of Roughtime messages, their wire value and their order. */
module Tags {
  import opened Wrappers
  import opened Primitives
  import opened Cursors

  /** A tag is its discriminant: the ASCII name read as a big-endian number. */
  type Tag = u32

  const INVALID: Tag := 0x00000000
  const SIG: Tag := 0x53494700
  const VER: Tag := 0x56455200
  const SRV: Tag := 0x53525600
  const NONC: Tag := 0x4e4f4e43
  const DELE: Tag := 0x44454c45
  const TYPE: Tag := 0x54595045
  const PATH: Tag := 0x50415448
  const RADI: Tag := 0x52414449
  const PUBK: Tag := 0x5055424b
  const MIDP: Tag := 0x4d494450
  const SREP: Tag := 0x53524550
  const VERS: Tag := 0x56455253
  const MINT: Tag := 0x4d494e54
  const ROOT: Tag := 0x524f4f54
  const CERT: Tag := 0x43455254
  const MAXT: Tag := 0x4d415854
  const INDX: Tag := 0x494e4458
  const ZZZZ: Tag := 0x5a5a5a5a
  const PAD: Tag := 0x504144ff

  /** Every tag that the wire may carry. */
  predicate Known(value: u32) {
    || value == SIG || value == VER || value == SRV || value == NONC || value == DELE || value == TYPE
    || value == PATH || value == RADI || value == PUBK || value == MIDP || value == SREP || value == VERS
    || value == MINT || value == ROOT || value == CERT || value == MAXT || value == INDX || value == ZZZZ
    || value == PAD
  }

  function WireValue(tag: Tag): (b: Bytes)
    ensures |b| == 4
  {
    BE(tag, 4)
  }

  function TryFrom(value: u32): Result<Tag, Error> {
    if Known(value) then Ok(value) else Err(InvalidTag(value))
  }

  /** Order of the little-endian images, compared byte by byte. */
  predicate Less(a: Tag, b: Tag) {
    LexLess(LE(a, 4), LE(b, 4))
  }

  /** A tag as the uint32 of section 4.2 of draft-ietf-ntp-roughtime-14: its wire bytes read little-endian. */
  function Numeric(tag: Tag): nat {
    FromLE(WireValue(tag))
  }

  /** The byte-wise order of the code is the numeric order of the protocol. */
  lemma OrderIsNumeric(a: Tag, b: Tag)
    ensures Less(a, b) <==> Numeric(a) < Numeric(b)
  {
    SwappedOrder(a, b, 4);
  }

  /** The invalid tag, with which a header parse starts, is below every tag. */
  lemma InvalidIsLeast(tag: Tag)
    ensures !Less(tag, INVALID)
  {
    OrderIsNumeric(tag, INVALID);
    ZeroImage(4);
  }

  lemma {:induction false} ZeroImage(n: nat)
    ensures FromLE(BE(0, n)) == 0
  {
    SwapAgrees(0, n);
    if n > 0 {
      ZeroImage(n - 1);
      SwapAgrees(0, n - 1);
      SplitBE(LE(0, n));
      assert LE(0, n)[1..] == LE(0, n - 1);
    }
  }

  /** The last two letters of a tag's name are its most significant wire bytes, so they decide most comparisons. */
  lemma LastLettersDecide(a: Tag, b: Tag)
    requires a % 256 < b % 256 || (a % 256 == b % 256 && (a / 256) % 256 < (b / 256) % 256)
    ensures Numeric(a) < Numeric(b)
  {
    OrderIsNumeric(a, b);
    FirstBytes(a);
    FirstBytes(b);
    var x, y := LE(a, 4), LE(b, 4);
    if a % 256 == b % 256 {
      assert LexLess(x[1..], y[1..]);
    }
    assert LexLess(x, y);
  }

  lemma FirstBytes(a: Tag)
    ensures LE(a, 4)[0] == a % 256 && LE(a, 4)[1..] != [] && LE(a, 4)[1..][0] == (a / 256) % 256
  {
    assert LE(a, 4)[1..] == LE(a / 256, 3);
  }

  /** Four letters read as a big-endian number. */
  predicate Spelled(tag: Tag, name: string) {
    && |name| == 4 && (forall i :: 0 <= i < 4 ==> name[i] as int < 0x100)
    && tag == ((name[0] as int * 256 + name[1] as int) * 256 + name[2] as int) * 256 + name[3] as int
  }

  /** On the wire a tag is the letters of its name. */
  lemma WireIsName(tag: Tag, name: string)
    requires Spelled(tag, name)
    ensures WireValue(tag) == Ascii(name)
  {
    var a, b, c, d := name[0] as int, name[1] as int, name[2] as int, name[3] as int;
    BEIsWord(tag);
    assert tag / 256 == (a * 256 + b) * 256 + c && tag % 256 == d;
    assert tag / 256 / 256 == a * 256 + b && tag / 256 % 256 == c;
    assert tag / 256 / 256 / 256 == a && tag / 256 / 256 % 256 == b;
  }

  /** The names of all tags; short ones end in a zero byte. */
  lemma TagNames()
    ensures Spelled(SIG, "SIG\0") && Spelled(VER, "VER\0") && Spelled(SRV, "SRV\0") && Spelled(NONC, "NONC")
    ensures Spelled(DELE, "DELE") && Spelled(TYPE, "TYPE") && Spelled(PATH, "PATH") && Spelled(RADI, "RADI")
  {
  }

  lemma MoreTagNames()
    ensures Spelled(PUBK, "PUBK") && Spelled(MIDP, "MIDP") && Spelled(SREP, "SREP") && Spelled(VERS, "VERS")
    ensures Spelled(MINT, "MINT") && Spelled(ROOT, "ROOT") && Spelled(CERT, "CERT") && Spelled(MAXT, "MAXT")
    ensures Spelled(INDX, "INDX") && Spelled(ZZZZ, "ZZZZ") && Spelled(PAD, "PAD\U{ff}")
  {
  }
}
