/** Bytes, machine words and their two wire encodings. */
module Primitives {

  type byte = x: int | 0 <= x < 0x100
  type u32 = x: int | 0 <= x < 0x1_0000_0000
  type u64 = x: int | 0 <= x < 0x1_0000_0000_0000_0000

  type Bytes = seq<byte>
  type Bytes32 = b: Bytes | |b| == 32 witness Zeros(32)
  type Bytes64 = b: Bytes | |b| == 64 witness Zeros(64)

  function Zeros(n: nat): (b: Bytes)
    ensures |b| == n
  {
    seq(n, _ => 0)
  }

  function Pow256(n: nat): (p: nat)
    ensures p > 0
  {
    if n == 0 then 1 else 256 * Pow256(n - 1)
  }

  lemma WordSizes()
    ensures Pow256(4) == 0x1_0000_0000
    ensures Pow256(8) == 0x1_0000_0000_0000_0000
  {
    assert Pow256(2) == 0x1_0000;
    assert Pow256(4) == 0x1_0000_0000;
    assert Pow256(6) == 0x1_0000_0000_0000;
  }

  /** The n least significant base-256 digits of v, least significant first. */
  function LE(v: nat, n: nat): (b: Bytes)
    ensures |b| == n
    decreases n, v
  {
    if n == 0 then [] else [v % 256] + LE(v / 256, n - 1)
  }

  function FromLE(b: Bytes): (v: nat)
    ensures v < Pow256(|b|)
  {
    if b == [] then 0 else b[0] + 256 * FromLE(b[1..])
  }

  /** The same digits, most significant first. */
  function BE(v: nat, n: nat): (b: Bytes)
    ensures |b| == n
    decreases n, v
  {
    if n == 0 then [] else BE(v / 256, n - 1) + [v % 256]
  }

  function FromBE(b: Bytes): (v: nat)
    ensures v < Pow256(|b|)
  {
    if b == [] then 0 else 256 * FromBE(b[..|b| - 1]) + b[|b| - 1]
  }

  function U32Of(b: Bytes): u32
    requires |b| == 4
  {
    WordSizes();
    FromLE(b)
  }

  function U64Of(b: Bytes): u64
    requires |b| == 8
  {
    WordSizes();
    FromLE(b)
  }

  lemma {:induction false} DecodeEncodeLE(v: nat, n: nat)
    requires v < Pow256(n)
    ensures FromLE(LE(v, n)) == v
  {
    if n > 0 {
      DecodeEncodeLE(v / 256, n - 1);
      assert LE(v, n)[1..] == LE(v / 256, n - 1);
    }
  }

  lemma {:induction false} EncodeDecodeLE(b: Bytes)
    ensures LE(FromLE(b), |b|) == b
  {
    if b != [] {
      EncodeDecodeLE(b[1..]);
      assert FromLE(b) % 256 == b[0] && FromLE(b) / 256 == FromLE(b[1..]);
    }
  }

  lemma {:induction false} DecodeEncodeBE(v: nat, n: nat)
    requires v < Pow256(n)
    ensures FromBE(BE(v, n)) == v
  {
    if n > 0 {
      DecodeEncodeBE(v / 256, n - 1);
      assert BE(v, n)[..n - 1] == BE(v / 256, n - 1);
    }
  }

  lemma {:induction false} EncodeDecodeBE(b: Bytes)
    ensures BE(FromBE(b), |b|) == b
  {
    if b != [] {
      var k := |b| - 1;
      EncodeDecodeBE(b[..k]);
      assert FromBE(b) % 256 == b[k] && FromBE(b) / 256 == FromBE(b[..k]);
      assert b == b[..k] + [b[k]];
    }
  }

  lemma U32RoundTrip(v: u32)
    ensures U32Of(LE(v, 4)) == v
  {
    WordSizes();
    DecodeEncodeLE(v, 4);
  }

  lemma U64RoundTrip(v: u64)
    ensures U64Of(LE(v, 8)) == v
  {
    WordSizes();
    DecodeEncodeLE(v, 8);
  }

  /** Lexicographic order on byte strings, as Rust compares arrays. */
  predicate LexLess(a: Bytes, b: Bytes) {
    b != [] && (a == [] || a[0] < b[0] || (a[0] == b[0] && LexLess(a[1..], b[1..])))
  }

  /** Lexicographic order of little-endian images is numeric order of the byte-swapped words. */
  lemma {:induction false} LexIsNumericBE(a: Bytes, b: Bytes)
    requires |a| == |b|
    ensures LexLess(a, b) <==> FromBE(a) < FromBE(b)
  {
    if a != [] {
      LexIsNumericBE(a[1..], b[1..]);
      SplitBE(a);
      SplitBE(b);
      DigitOrder(a[0], b[0], Pow256(|a| - 1), FromBE(a[1..]), FromBE(b[1..]));
    }
  }

  lemma DigitOrder(x: nat, y: nat, p: nat, u: nat, v: nat)
    requires u < p && v < p
    ensures x * p + u < y * p + v <==> x < y || (x == y && u < v)
  {
    if x < y {
      MulMonotone(x + 1, y, p);
    } else if y < x {
      MulMonotone(y + 1, x, p);
    }
  }

  lemma MulMonotone(x: nat, y: nat, p: nat)
    requires x <= y
    ensures x * p <= y * p
  {
  }

  lemma ShiftDigits(d: nat, p: nat, u: nat, e: nat)
    ensures 256 * (d * p + u) + e == d * (256 * p) + (256 * u + e)
  {
  }

  lemma {:induction false} SplitBE(b: Bytes)
    requires b != []
    ensures FromBE(b) == b[0] * Pow256(|b| - 1) + FromBE(b[1..])
  {
    var k := |b| - 1;
    if k > 0 {
      var front, tail := b[..k], b[1..];
      SplitBE(front);
      assert front[1..] == tail[..k - 1] && tail[k - 1] == b[k] && front[0] == b[0];
      assert Pow256(k) == 256 * Pow256(k - 1);
      ShiftDigits(b[0], Pow256(k - 1), FromBE(tail[..k - 1]), b[k]);
    } else {
      assert b[1..] == [] && b[..0] == [];
    }
  }

  /** Reading the big-endian image of v as little-endian equals reading the little-endian image as big-endian. */
  lemma {:induction false} SwapAgrees(v: nat, n: nat)
    ensures FromLE(BE(v, n)) == FromBE(LE(v, n))
  {
    if n > 0 {
      SwapAgrees(v / 256, n - 1);
      SplitBE(LE(v, n));
      assert LE(v, n)[1..] == LE(v / 256, n - 1);
      AppendLE(BE(v / 256, n - 1), v % 256);
    }
  }

  /** Comparing little-endian images byte by byte compares the byte-swapped words as numbers. */
  lemma SwappedOrder(x: nat, y: nat, n: nat)
    ensures LexLess(LE(x, n), LE(y, n)) <==> FromLE(BE(x, n)) < FromLE(BE(y, n))
  {
    LexIsNumericBE(LE(x, n), LE(y, n));
    SwapAgrees(x, n);
    SwapAgrees(y, n);
  }

  lemma {:induction false} AppendLE(b: Bytes, d: byte)
    ensures FromLE(b + [d]) == FromLE(b) + d * Pow256(|b|)
  {
    if b != [] {
      AppendLE(b[1..], d);
      assert (b + [d])[1..] == b[1..] + [d];
      assert 256 * (d * Pow256(|b| - 1)) == d * Pow256(|b|);
    } else {
      assert [d][1..] == [];
    }
  }

  // ---- Words and names, byte by byte ----------------------------------------------------------------

  /** The bytes of a string of ASCII characters. */
  function Ascii(s: string): (b: Bytes)
    ensures |b| == |s|
    ensures forall i :: 0 <= i < |s| && s[i] as int < 0x100 ==> b[i] == s[i] as int
  {
    seq<byte>(|s|, i requires 0 <= i < |s| => (s[i] as int) % 256)
  }

  /** The four bytes of a word, least significant first. */
  function Word(v: u32): (b: Bytes)
    ensures |b| == 4
  {
    var v1 := v / 256;
    var v2 := v1 / 256;
    [v % 256, v1 % 256, v2 % 256, v2 / 256]
  }

  /** The eight bytes of a long word, least significant first. */
  function Long(v: u64): (b: Bytes)
    ensures |b| == 8
  {
    var v1 := v / 256;
    var v2 := v1 / 256;
    var v3 := v2 / 256;
    var v4 := v3 / 256;
    var v5 := v4 / 256;
    var v6 := v5 / 256;
    [v % 256, v1 % 256, v2 % 256, v3 % 256, v4 % 256, v5 % 256, v6 % 256, v6 / 256]
  }

  /** The digits that a longer word puts in front. */
  lemma LEStep(v: nat, n: nat)
    ensures LE(v, n + 1) == [v % 256] + LE(v / 256, n)
    ensures BE(v, n + 1) == BE(v / 256, n) + [v % 256]
  {
  }

  lemma OneDigit(v: nat)
    ensures LE(v, 1) == [v % 256] == BE(v, 1)
  {
    LEStep(v, 0);
  }

  lemma {:induction false} LEIsWord(v: u32)
    ensures LE(v, 4) == Word(v)
  {
    var v1 := v / 256;
    var v2 := v1 / 256;
    var v3 := v2 / 256;
    LEStep(v, 3);
    LEStep(v1, 2);
    LEStep(v2, 1);
    OneDigit(v3);
    assert v3 % 256 == v3;
  }

  lemma {:induction false} LEIsLong(v: u64)
    ensures LE(v, 8) == Long(v)
  {
    var v1 := v / 256;
    var v2 := v1 / 256;
    var v3 := v2 / 256;
    var v4 := v3 / 256;
    LEStep(v, 7);
    LEStep(v1, 6);
    LEStep(v2, 5);
    LEStep(v3, 4);
    LEIsWord(v4);
  }

  /** The image of four letters, read as a big-endian number. */
  lemma {:induction false} BEIsWord(v: u32)
    ensures BE(v, 4) == [Word(v)[3], Word(v)[2], Word(v)[1], Word(v)[0]]
  {
    var v1 := v / 256;
    var v2 := v1 / 256;
    var v3 := v2 / 256;
    LEStep(v, 3);
    LEStep(v1, 2);
    LEStep(v2, 1);
    OneDigit(v3);
    assert v3 % 256 == v3;
  }

  // ---- Concatenations, nested to the right, that are followed by more or that follow something ------

  lemma Follow2(a: Bytes, b: Bytes, rest: Bytes)
    ensures (a + b) + rest == a + (b + rest)
  {
  }

  lemma Follow3(a: Bytes, b: Bytes, c: Bytes, rest: Bytes)
    ensures (a + (b + c)) + rest == a + (b + (c + rest))
  {
    Follow2(a, b + c, rest);
    Follow2(b, c, rest);
  }

  lemma Follow4(a: Bytes, b: Bytes, c: Bytes, d: Bytes, rest: Bytes)
    ensures (a + (b + (c + d))) + rest == a + (b + (c + (d + rest)))
  {
    Follow2(a, b + (c + d), rest);
    Follow3(b, c, d, rest);
  }

  lemma Follow5(a: Bytes, b: Bytes, c: Bytes, d: Bytes, e: Bytes, rest: Bytes)
    ensures (a + (b + (c + (d + e)))) + rest == a + (b + (c + (d + (e + rest))))
  {
    Follow2(a, b + (c + (d + e)), rest);
    Follow4(b, c, d, e, rest);
  }

  lemma Follow6(a: Bytes, b: Bytes, c: Bytes, d: Bytes, e: Bytes, f: Bytes, rest: Bytes)
    ensures (a + (b + (c + (d + (e + f))))) + rest == a + (b + (c + (d + (e + (f + rest)))))
  {
    Follow2(a, b + (c + (d + (e + f))), rest);
    Follow5(b, c, d, e, f, rest);
  }

  lemma Follow7(a: Bytes, b: Bytes, c: Bytes, d: Bytes, e: Bytes, f: Bytes, g: Bytes, rest: Bytes)
    ensures (a + (b + (c + (d + (e + (f + g)))))) + rest == a + (b + (c + (d + (e + (f + (g + rest))))))
  {
    Follow2(a, b + (c + (d + (e + (f + g)))), rest);
    Follow6(b, c, d, e, f, g, rest);
  }

  lemma SameFront(front: Bytes, x: Bytes, y: Bytes)
    ensures front + x == front + y <==> x == y
  {
    assert (front + x)[|front|..] == x && (front + y)[|front|..] == y;
  }

  lemma SameBack(x: Bytes, y: Bytes, back: Bytes)
    requires |x| == |y|
    ensures x + back == y + back <==> x == y
  {
    assert (x + back)[..|x|] == x && (y + back)[..|y|] == y;
  }

  lemma Onto3(w: Bytes, a: Bytes, b: Bytes, c: Bytes)
    ensures ((w + a) + b) + c == w + (a + (b + c))
  {
  }

  lemma Onto4(w: Bytes, a: Bytes, b: Bytes, c: Bytes, d: Bytes)
    ensures (((w + a) + b) + c) + d == w + (a + (b + (c + d)))
  {
    Onto3(w + a, b, c, d);
    Follow2(w, a, b + (c + d));
  }

  lemma Onto6(w: Bytes, a: Bytes, b: Bytes, c: Bytes, d: Bytes, e: Bytes, f: Bytes)
    ensures (((((w + a) + b) + c) + d) + e) + f == w + (a + (b + (c + (d + (e + f)))))
  {
    Onto4(w + a + b, c, d, e, f);
    Onto3(w, a, b, c + (d + (e + f)));
  }

  /** Strings with ends of one length are equal only part by part. */
  lemma SameSplit(a: Bytes, x: Bytes, b: Bytes, y: Bytes)
    requires |x| == |y|
    ensures a + x == b + y <==> a == b && x == y
  {
    if a + x == b + y {
      var s, t := a + x, b + y;
      assert |a| == |b|;
      assert a == s[..|a|] && b == t[..|b|] && x == s[|a|..] && y == t[|b|..];
    }
  }

  /** What has been written so far is the beginning of what is to be written. */
  lemma Begins(w: Bytes, a: Bytes, rest: Bytes)
    ensures w <= w + (a + rest) && w + a <= w + (a + rest)
  {
    Follow2(w, a, rest);
  }
}
