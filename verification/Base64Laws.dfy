/** What the base64 codec is for: the laws that hold between encoder, decoder and bit strings. */
module Base64Laws {
  import opened Base64
  import opened Common

  // ---------------------------------------------------------------- bit strings

  /** The `n` low bits of a number, most significant first. */
  function BitsOf(x: nat, n: nat): (b: seq<bool>)
    ensures |b| == n
  {
    if n == 0 then [] else BitsOf(x / 2, n - 1) + [x % 2 == 1]
  }

  function Pow2(k: nat): (r: nat)
    ensures r > 0
  {
    if k == 0 then 1 else 2 * Pow2(k - 1)
  }

  function Zeros(n: nat): (r: seq<bool>)
    ensures |r| == n
  {
    seq(n, _ => false)
  }

  /** Shifting by `k` places and adding a number below `2^k` concatenates bits. */
  lemma {:induction false} BitsConcat(x: nat, n: nat, y: nat, k: nat)
    requires y < Pow2(k)
    ensures BitsOf(x * Pow2(k) + y, n + k) == BitsOf(x, n) + BitsOf(y, k)
  {
    if k == 0 {
      assert BitsOf(x, n) + [] == BitsOf(x, n);
    } else {
      var z := x * Pow2(k - 1);
      assert x * Pow2(k) + y == 2 * z + y;
      assert (2 * z + y) / 2 == z + y / 2 && (2 * z + y) % 2 == y % 2;
      BitsConcat(x, n, y / 2, k - 1);
    }
  }

  lemma {:induction false} BitsOfZero(n: nat)
    ensures BitsOf(0, n) == Zeros(n)
  {
    if n > 0 {
      BitsOfZero(n - 1);
    }
  }

  /** The bits of a byte string, in order. */
  function Bits(b: seq<uchar>): (r: seq<bool>)
    ensures |r| == 8 * |b|
  {
    if b == [] then [] else BitsOf(b[0], 8) + Bits(b[1..])
  }

  /** The bits that a text of alphabet characters stands for, six a character. */
  function TextBits(t: seq<uchar>): (r: seq<bool>)
    requires forall i :: 0 <= i < |t| ==> InAlphabets(t[i])
    ensures |r| == 6 * |t|
  {
    if t == [] then [] else BitsOf(Sextet(t[0]), 6) + TextBits(t[1..])
  }

  /** A byte is cut as 6+2, 4+4 or 2+6 bits and a sextet as 2+4 or 4+2 bits. */
  lemma Join62(v: nat, hi: nat, lo: nat)
    requires lo < 4 && v == hi * 4 + lo
    ensures BitsOf(v, 8) == BitsOf(hi, 6) + BitsOf(lo, 2)
  {
    assert Pow2(2) == 4;
    BitsConcat(hi, 6, lo, 2);
  }

  lemma Join44(v: nat, hi: nat, lo: nat)
    requires lo < 16 && v == hi * 16 + lo
    ensures BitsOf(v, 8) == BitsOf(hi, 4) + BitsOf(lo, 4)
  {
    assert Pow2(4) == 16;
    BitsConcat(hi, 4, lo, 4);
  }

  lemma Join26(v: nat, hi: nat, lo: nat)
    requires lo < 64 && v == hi * 64 + lo
    ensures BitsOf(v, 8) == BitsOf(hi, 2) + BitsOf(lo, 6)
  {
    assert Pow2(6) == 64;
    BitsConcat(hi, 2, lo, 6);
  }

  lemma Join24(v: nat, hi: nat, lo: nat)
    requires lo < 16 && v == hi * 16 + lo
    ensures BitsOf(v, 6) == BitsOf(hi, 2) + BitsOf(lo, 4)
  {
    assert Pow2(4) == 16;
    BitsConcat(hi, 2, lo, 4);
  }

  lemma Join42(v: nat, hi: nat, lo: nat)
    requires lo < 4 && v == hi * 4 + lo
    ensures BitsOf(v, 6) == BitsOf(hi, 4) + BitsOf(lo, 2)
  {
    assert Pow2(2) == 4;
    BitsConcat(hi, 4, lo, 2);
  }

  /** The parts of a byte. */
  lemma CutByte(x: uchar)
    ensures BitsOf(x, 8)[..6] == BitsOf(x / 4, 6) && BitsOf(x, 8)[6..] == BitsOf(x % 4, 2)
    ensures BitsOf(x, 8)[..4] == BitsOf(x / 16, 4) && BitsOf(x, 8)[4..] == BitsOf(x % 16, 4)
    ensures BitsOf(x, 8)[..2] == BitsOf(x / 64, 2) && BitsOf(x, 8)[2..] == BitsOf(x % 64, 6)
  {
    hide BitsOf;
    Join62(x, x / 4, x % 4);
    Join44(x, x / 16, x % 16);
    Join26(x, x / 64, x % 64);
  }

  /** The parts of a sextet. */
  lemma CutSextet(p: int)
    requires 0 <= p < 64
    ensures BitsOf(p, 6)[..2] == BitsOf(p / 16, 2) && BitsOf(p, 6)[2..] == BitsOf(p % 16, 4)
    ensures BitsOf(p, 6)[..4] == BitsOf(p / 4, 4) && BitsOf(p, 6)[4..] == BitsOf(p % 4, 2)
  {
    hide BitsOf;
    Join24(p, p / 16, p % 16);
    Join42(p, p / 4, p % 4);
  }

  lemma MiddleSextets(x: uchar, y: uchar)
    ensures BitsOf(x % 4 * 16 + y / 16, 6) == BitsOf(x % 4, 2) + BitsOf(y / 16, 4)
    ensures BitsOf(x % 16 * 4 + y / 64, 6) == BitsOf(x % 16, 4) + BitsOf(y / 64, 2)
    ensures BitsOf(x % 4 * 16, 6) == BitsOf(x % 4, 2) + Zeros(4)
    ensures BitsOf(x % 16 * 4, 6) == BitsOf(x % 16, 4) + Zeros(2)
  {
    hide BitsOf, Zeros;
    Join24(x % 4 * 16 + y / 16, x % 4, y / 16);
    Join42(x % 16 * 4 + y / 64, x % 16, y / 64);
    Join24(x % 4 * 16, x % 4, 0);
    Join42(x % 16 * 4, x % 16, 0);
    BitsOfZero(4);
    BitsOfZero(2);
  }

  /** Where the bits of a chunk's sextets come from. */
  lemma SextetSources1(x: uchar)
    ensures BitsOf(Sextets1(x)[0], 6) == BitsOf(x, 8)[..6]
    ensures BitsOf(Sextets1(x)[1], 6) == BitsOf(x, 8)[6..] + Zeros(4)
  {
    hide BitsOf, Zeros;
    CutByte(x);
    MiddleSextets(x, 0);
  }

  lemma SextetSources2(x: uchar, y: uchar)
    ensures BitsOf(Sextets2(x, y)[0], 6) == BitsOf(x, 8)[..6]
    ensures BitsOf(Sextets2(x, y)[1], 6) == BitsOf(x, 8)[6..] + BitsOf(y, 8)[..4]
    ensures BitsOf(Sextets2(x, y)[2], 6) == BitsOf(y, 8)[4..] + Zeros(2)
  {
    hide BitsOf, Zeros;
    CutByte(x);
    CutByte(y);
    MiddleSextets(x, y);
    MiddleSextets(y, 0);
  }

  lemma SextetSources3(x: uchar, y: uchar, z: uchar)
    ensures BitsOf(Sextets3(x, y, z)[0], 6) == BitsOf(x, 8)[..6]
    ensures BitsOf(Sextets3(x, y, z)[1], 6) == BitsOf(x, 8)[6..] + BitsOf(y, 8)[..4]
    ensures BitsOf(Sextets3(x, y, z)[2], 6) == BitsOf(y, 8)[4..] + BitsOf(z, 8)[..2]
    ensures BitsOf(Sextets3(x, y, z)[3], 6) == BitsOf(z, 8)[2..]
  {
    hide BitsOf;
    CutByte(x);
    CutByte(y);
    CutByte(z);
    MiddleSextets(x, y);
    MiddleSextets(y, z);
  }

  /** Where the bits of a chunk's bytes come from. */
  lemma ByteSources(p: int, q: int)
    requires 0 <= p < 64 && 0 <= q < 64
    ensures BitsOf(Byte1(p, q), 8) == BitsOf(p, 6) + BitsOf(q, 6)[..2]
    ensures BitsOf(Byte2(p, q), 8) == BitsOf(p, 6)[2..] + BitsOf(q, 6)[..4]
    ensures BitsOf(Byte3(p, q), 8) == BitsOf(p, 6)[4..] + BitsOf(q, 6)
  {
    hide BitsOf;
    CutSextet(p);
    CutSextet(q);
    Join62(Byte1(p, q), p, q / 16);
    Join44(Byte2(p, q), p % 16, q / 4);
    Join26(Byte3(p, q), p % 4, q);
  }

  lemma {:induction false} BitsConcatenate(a: seq<uchar>, b: seq<uchar>)
    ensures Bits(a + b) == Bits(a) + Bits(b)
  {
    hide BitsOf;
    if a == [] {
      assert a + b == b;
    } else {
      BitsConcatenate(a[1..], b);
      assert (a + b)[1..] == a[1..] + b;
    }
  }

  lemma {:induction false} TextBitsConcatenate(a: seq<uchar>, b: seq<uchar>)
    requires forall i :: 0 <= i < |a| ==> InAlphabets(a[i])
    requires forall i :: 0 <= i < |b| ==> InAlphabets(b[i])
    ensures TextBits(a + b) == TextBits(a) + TextBits(b)
  {
    hide BitsOf, InAlphabets, Sextet;
    if a == [] {
      assert a + b == b;
    } else {
      TextBitsConcatenate(a[1..], b);
      assert (a + b)[1..] == a[1..] + b;
    }
  }

  // ---------------------------------------------------------------- what the encoder writes

  lemma CharRoundTrip(url: bool, p: int)
    requires 0 <= p < 64
    ensures PosOfChar(CharOf(url, p)) == Ok(p) && !IsPad(CharOf(url, p)) && CharOf(url, p) != NEWLINE
  {
  }

  /** The number of alphabet characters that cover `8 * n` bits. */
  function DataLength(n: nat): (k: nat)
    ensures 6 * (k - 1) < 8 * n <= 6 * k
  {
    (8 * n + 5) / 6
  }

  /** `t` spells the bits of `b`, zero-filled to whole sextets, over the chosen alphabet, and then only padding. */
  ghost predicate Spells(t: seq<uchar>, b: seq<uchar>, url: bool) {
    var k := DataLength(|b|);
    && |t| == (|b| + 2) / 3 * 4
    && k <= |t|
    && (forall i :: 0 <= i < k ==> InAlphabets(t[i]) && CharOf(url, Sextet(t[i])) == t[i])
    && (forall i :: k <= i < |t| ==> t[i] == TrailingChar(url))
    && TextBits(t[..k]) == Bits(b) + Zeros(6 * k - 8 * |b|)
  }

  /** The bits of a run of sextets. */
  function SextetBits(p: seq<int>): (r: seq<bool>)
    requires AreSextets(p)
    ensures |r| == 6 * |p|
  {
    if p == [] then [] else BitsOf(p[0], 6) + SextetBits(p[1..])
  }

  lemma {:induction false} TextBitsOfChars(p: seq<int>, url: bool)
    requires AreSextets(p)
    ensures forall i :: 0 <= i < |p| ==> PosOfChar(CharOf(url, p[i])) == Ok(p[i])
    ensures TextBits(CharsOf(p, url)) == SextetBits(p)
  {
    hide BitsOf, CharOf, PosOfChar;
    forall i | 0 <= i < |p| ensures PosOfChar(CharOf(url, p[i])) == Ok(p[i]) {
      CharRoundTrip(url, p[i]);
    }
    if p != [] {
      TextBitsOfChars(p[1..], url);
      assert CharsOf(p, url)[1..] == CharsOf(p[1..], url);
    }
  }

  /** Two to four sextets, and one to three bytes, bit by bit. */
  lemma UnfoldSextets(p: seq<int>)
    requires AreSextets(p)
    ensures |p| == 2 ==> SextetBits(p) == BitsOf(p[0], 6) + BitsOf(p[1], 6)
    ensures |p| == 3 ==> SextetBits(p) == BitsOf(p[0], 6) + BitsOf(p[1], 6) + BitsOf(p[2], 6)
    ensures |p| == 4 ==> SextetBits(p) == BitsOf(p[0], 6) + BitsOf(p[1], 6) + BitsOf(p[2], 6) + BitsOf(p[3], 6)
  {
    hide BitsOf;
    if |p| >= 1 { assert SextetBits(p) == BitsOf(p[0], 6) + SextetBits(p[1..]); }
    if |p| >= 2 { assert SextetBits(p[1..]) == BitsOf(p[1], 6) + SextetBits(p[2..]) by { assert p[1..][1..] == p[2..]; } }
    if |p| >= 3 { assert SextetBits(p[2..]) == BitsOf(p[2], 6) + SextetBits(p[3..]) by { assert p[2..][1..] == p[3..]; } }
    if |p| == 4 { assert SextetBits(p[3..]) == BitsOf(p[3], 6) + SextetBits(p[4..]) by { assert p[3..][1..] == p[4..]; } }
  }

  lemma UnfoldBits(b: seq<uchar>)
    ensures |b| == 1 ==> Bits(b) == BitsOf(b[0], 8)
    ensures |b| == 2 ==> Bits(b) == BitsOf(b[0], 8) + BitsOf(b[1], 8)
    ensures |b| == 3 ==> Bits(b) == BitsOf(b[0], 8) + BitsOf(b[1], 8) + BitsOf(b[2], 8)
  {
    hide BitsOf;
    if |b| == 1 { assert b == [b[0]]; }
    if |b| == 2 { assert b == [b[0], b[1]]; }
    if |b| == 3 { assert b == [b[0], b[1], b[2]]; }
  }

  /** The sextets of a chunk are its bits, filled with zeros. */
  lemma PositionBits(b: seq<uchar>)
    requires 1 <= |b| <= 3
    ensures SextetBits(ToSextets(b)) == Bits(b) + Zeros(6 * (|b| + 1) - 8 * |b|)
  {
    hide BitsOf, SextetBits, Bits, Zeros, Sextets1, Sextets2, Sextets3;
    UnfoldBits(b);
    if |b| == 1 {
      PositionBits1(b[0]);
    } else if |b| == 2 {
      PositionBits2(b[0], b[1]);
    } else {
      PositionBits3(b[0], b[1], b[2]);
      AddEmpty(Bits(b));
    }
  }

  lemma PositionBits1(x: uchar)
    ensures SextetBits(Sextets1(x)) == BitsOf(x, 8) + Zeros(4)
  {
    hide BitsOf, SextetBits, Zeros, Sextets1;
    UnfoldSextets(Sextets1(x));
    SextetSources1(x);
    Regroup(BitsOf(x, 8), Zeros(4), Zeros(2));
  }

  lemma PositionBits2(x: uchar, y: uchar)
    ensures SextetBits(Sextets2(x, y)) == BitsOf(x, 8) + BitsOf(y, 8) + Zeros(2)
  {
    hide BitsOf, SextetBits, Zeros, Sextets2;
    UnfoldSextets(Sextets2(x, y));
    SextetSources2(x, y);
    Regroup(BitsOf(x, 8), BitsOf(y, 8), Zeros(2));
  }

  lemma PositionBits3(x: uchar, y: uchar, z: uchar)
    ensures SextetBits(Sextets3(x, y, z)) == BitsOf(x, 8) + BitsOf(y, 8) + BitsOf(z, 8)
  {
    hide BitsOf, SextetBits, Sextets3;
    UnfoldSextets(Sextets3(x, y, z));
    SextetSources3(x, y, z);
    Regroup(BitsOf(x, 8), BitsOf(y, 8), BitsOf(z, 8));
  }

  lemma Regroup(x: seq<bool>, y: seq<bool>, z: seq<bool>)
    requires |x| == 8 && |y| >= 4 && |z| >= 2
    ensures x[..6] + (x[6..] + y) == x + y
    ensures x[..6] + (x[6..] + y[..4]) + (y[4..] + z) == x + y + z
    ensures x[..6] + (x[6..] + y[..4]) + (y[4..] + z[..2]) + z[2..] == x + y + z
  {
  }

  lemma AddEmpty(b: seq<bool>)
    ensures b + Zeros(0) == b && b + [] == b
  {
  }

  lemma {:induction false} ChunkSpells(b: seq<uchar>, url: bool)
    requires 1 <= |b| <= 3
    ensures Spells(EncodeChunk(b, url), b, url)
  {
    hide CharOf, PosOfChar, ToSextets, Bits, BitsOf, TextBits, SextetBits;
    var p := ToSextets(b);
    var t := EncodeChunk(b, url);
    assert t[..|b| + 1] == CharsOf(p, url);
    TextBitsOfChars(p, url);
    PositionBits(b);
  }

  /** The encoding is the input's bits in order, zero-filled to whole sextets and padded to whole chunks. */
  lemma {:induction false} EncodeSpells(b: seq<uchar>, url: bool)
    ensures Spells(Encode(b, url), b, url)
    decreases |b|
  {
    if b == [] {
      assert TextBits([]) == Bits(b) + Zeros(0);
    } else if |b| <= 3 {
      ChunkSpells(b, url);
      assert EncodeChunk(b, url) + Encode([], url) == EncodeChunk(b, url);
    } else {
      ChunkSpells(b[..3], url);
      EncodeSpells(b[3..], url);
      SpellsConcatenate(EncodeChunk(b[..3], url), b[..3], Encode(b[3..], url), b[3..], url);
      assert b[..3] + b[3..] == b;
    }
  }

  lemma SpellsConcatenate(t: seq<uchar>, a: seq<uchar>, u: seq<uchar>, b: seq<uchar>, url: bool)
    requires Spells(t, a, url) && Spells(u, b, url) && |a| == 3
    ensures Spells(t + u, a + b, url)
  {
    hide CharOf, PosOfChar, Bits, BitsOf, TextBits, Zeros;
    var k := DataLength(|b|);
    assert DataLength(|a + b|) == 4 + k;
    assert (t + u)[..4 + k] == t + u[..k];
    assert t[..4] == t;
    TextBitsConcatenate(t, u[..k]);
    BitsConcatenate(a, b);
    AddEmpty(Bits(a));
    assert Bits(a) + (Bits(b) + Zeros(6 * k - 8 * |b|)) == Bits(a) + Bits(b) + Zeros(6 * k - 8 * |b|);
  }

  // ---------------------------------------------------------------- round trips

  lemma BytesOfSextets(b: seq<uchar>)
    requires 1 <= |b| <= 3
    ensures ToBytes(ToSextets(b)) == b
  {
    hide Sextets1, Sextets2, Sextets3, Byte1, Byte2, Byte3;
    if |b| == 1 {
      BytesOf1(b[0]);
    } else if |b| == 2 {
      BytesOf2(b[0], b[1]);
    } else {
      BytesOf3(b[0], b[1], b[2]);
    }
  }

  lemma BytesOf1(x: uchar)
    ensures Byte1(Sextets1(x)[0], Sextets1(x)[1]) == x
  {
  }

  lemma BytesOf2(x: uchar, y: uchar)
    ensures Byte1(Sextets2(x, y)[0], Sextets2(x, y)[1]) == x && Byte2(Sextets2(x, y)[1], Sextets2(x, y)[2]) == y
  {
  }

  lemma BytesOf3(x: uchar, y: uchar, z: uchar)
    ensures Byte1(Sextets3(x, y, z)[0], Sextets3(x, y, z)[1]) == x
    ensures Byte2(Sextets3(x, y, z)[1], Sextets3(x, y, z)[2]) == y
    ensures Byte3(Sextets3(x, y, z)[2], Sextets3(x, y, z)[3]) == z
  {
  }

  /** A chunk decodes to its bytes, however much of its padding is dropped. */
  lemma ChunkRoundTrip(b: seq<uchar>, url: bool, k: nat)
    requires 1 <= |b| <= 3 && |b| + 1 <= k <= 4
    ensures DecodeChunk(EncodeChunk(b, url)[..k]) == Ok(b)
  {
    hide CharOf, PosOfChar, ToSextets, ToBytes;
    var p, s := ToSextets(b), EncodeChunk(b, url)[..k];
    forall i | 0 <= i < |p| ensures PosOfChar(s[i]) == Ok(p[i]) && !IsPad(s[i]) {
      CharRoundTrip(url, p[i]);
    }
    assert DataChars(s) == |b| + 1;
    assert ChunkSextets(s) == p;
    BytesOfSextets(b);
  }

  /** Decoding what the encoder wrote returns the input, for both alphabets and with any part of the trailing
      padding dropped: `j` may be any length from the data characters alone to the whole text. */
  lemma {:induction false} RoundTrip(b: seq<uchar>, url: bool, j: nat)
    requires DataLength(|b|) <= j <= |Encode(b, url)|
    ensures Decode(Encode(b, url)[..j]) == Ok(b)
    decreases |b|
  {
    hide EncodeChunk, DecodeChunk, FirstChunk, AfterChunk;
    var t := Encode(b, url);
    if b != [] {
      var c, r := FirstChunk(b, 3), AfterChunk(b, 3);
      SplitText(b, 3);
      var head, tail := EncodeChunk(c, url), Encode(r, url);
      SplitText(t[..j], 4);
      if r == [] {
        assert t == head;
        ChunkRoundTrip(c, url, j);
        assert c + [] == c == b;
      } else {
        assert head[..4] == head && t[..j][..4] == head && t[..j][4..] == tail[..j - 4];
        ChunkRoundTrip(c, url, 4);
        RoundTrip(r, url, j - 4);
      }
    }
  }

  /** A text is its first chunk and the rest. */
  lemma SplitText(s: seq<uchar>, size: nat)
    ensures |s| <= size ==> FirstChunk(s, size) == s && AfterChunk(s, size) == []
    ensures |s| >= size ==> FirstChunk(s, size) == s[..size] && AfterChunk(s, size) == s[size..]
    ensures FirstChunk(s, size) + AfterChunk(s, size) == s
  {
    if |s| == size {
      assert s[..size] == s && s[size..] == [];
    }
  }

  // ---------------------------------------------------------------- the encoder's image

  predicate InAlphabet(c: uchar, url: bool) { InAlphabets(c) && CharOf(url, Sextet(c)) == c }

  /** A chunk of four alphabet characters or, at the end only, two or three of them whose unused bits are zero,
      filled with the alphabet's padding character (section 3.5 of RFC 4648). */
  predicate CanonicalChunk(t: seq<uchar>, url: bool, last: bool) {
    && |t| == 4 && InAlphabet(t[0], url) && InAlphabet(t[1], url)
    && (|| (InAlphabet(t[2], url) && InAlphabet(t[3], url))
        || (last && InAlphabet(t[2], url) && Sextet(t[2]) % 4 == 0 && t[3] == TrailingChar(url))
        || (last && t[2] == TrailingChar(url) && t[3] == TrailingChar(url) && Sextet(t[1]) % 16 == 0))
  }

  predicate Canonical(t: seq<uchar>, url: bool) {
    t == [] || (|t| >= 4 && CanonicalChunk(t[..4], url, |t| == 4) && Canonical(t[4..], url))
  }

  lemma TrailingCharIsPad(url: bool)
    ensures IsPad(TrailingChar(url)) && !InAlphabets(TrailingChar(url))
  {
  }

  lemma AlphabetIsNotPad(c: uchar)
    requires InAlphabets(c)
    ensures !IsPad(c) && c != NEWLINE
  {
  }

  lemma EncodeChunkIsCanonical(b: seq<uchar>, url: bool)
    requires 1 <= |b| <= 3
    ensures CanonicalChunk(EncodeChunk(b, url), url, true)
    ensures |b| == 3 ==> CanonicalChunk(EncodeChunk(b, url), url, false)
  {
    hide CharOf, PosOfChar, Sextets1, Sextets2, Sextets3;
    var p, t := ToSextets(b), EncodeChunk(b, url);
    forall i | 0 <= i < |p| ensures InAlphabet(t[i], url) && Sextet(t[i]) == p[i] {
      CharRoundTrip(url, p[i]);
    }
    UnusedBits(b);
  }

  lemma UnusedBits(b: seq<uchar>)
    requires 1 <= |b| <= 3
    ensures |b| == 1 ==> ToSextets(b)[1] % 16 == 0
    ensures |b| == 2 ==> ToSextets(b)[2] % 4 == 0
  {
  }

  lemma {:induction false} EncodeIsCanonical(b: seq<uchar>, url: bool)
    ensures Canonical(Encode(b, url), url)
    decreases |b|
  {
    hide EncodeChunk, CanonicalChunk;
    if b != [] {
      var c, r := FirstChunk(b, 3), AfterChunk(b, 3);
      EncodeChunkIsCanonical(c, url);
      EncodeIsCanonical(r, url);
      EncodeSpells(r, url);
      assert Encode(b, url)[..4] == EncodeChunk(c, url) && Encode(b, url)[4..] == Encode(r, url);
    }
  }

  /** Sextets whose unused bits are zero come back from their bytes. */
  lemma SextetsOfBytes(p: seq<int>)
    requires 2 <= |p| <= 4 && AreSextets(p)
    requires |p| == 2 ==> p[1] % 16 == 0
    requires |p| == 3 ==> p[2] % 4 == 0
    ensures ToSextets(ToBytes(p)) == p
  {
    hide Sextets1, Sextets2, Sextets3, Byte1, Byte2, Byte3;
    if |p| == 2 {
      SextetsOfBytes2(p[0], p[1], 0, 0);
      assert p == [p[0], p[1]];
    } else if |p| == 3 {
      SextetsOfBytes2(p[0], p[1], p[2], 0);
      assert p == [p[0], p[1], p[2]];
    } else {
      SextetsOfBytes2(p[0], p[1], p[2], p[3]);
      assert p == [p[0], p[1], p[2], p[3]];
    }
  }

  lemma SextetsOfBytes2(p: int, q: int, r: int, s: int)
    requires 0 <= p < 64 && 0 <= q < 64 && 0 <= r < 64 && 0 <= s < 64
    ensures q % 16 == 0 ==> Sextets1(Byte1(p, q)) == [p, q]
    ensures r % 4 == 0 ==> Sextets2(Byte1(p, q), Byte2(q, r)) == [p, q, r]
    ensures Sextets3(Byte1(p, q), Byte2(q, r), Byte3(r, s)) == [p, q, r, s]
  {
    var x, y, z := Byte1(p, q), Byte2(q, r), Byte3(r, s);
    assert x / 4 == p && x % 4 == q / 16;
    assert y / 16 == q % 16 && y % 16 == r / 4;
    assert z / 64 == r % 4 && z % 64 == s;
  }

  lemma CanonicalChunkRoundTrip(t: seq<uchar>, url: bool, last: bool)
    requires CanonicalChunk(t, url, last)
    ensures DecodeChunk(t).Ok? && EncodeChunk(DecodeChunk(t).value, url) == t
    ensures last || |DecodeChunk(t).value| == 3
  {
    hide CharOf, PosOfChar, ToSextets, ToBytes, TrailingChar, IsPad;
    TrailingCharIsPad(url);
    forall i | 0 <= i < 4 && InAlphabets(t[i]) ensures !IsPad(t[i]) { AlphabetIsNotPad(t[i]); }
    var p := ChunkSextets(t);
    SextetsOfBytes(p);
    assert EncodeChunk(ToBytes(p), url) == CharsOf(p, url) + Padding(4 - |p|, url);
  }

  /** On canonical text, encoding undoes decoding. */
  lemma {:induction false} CanonicalRoundTrip(t: seq<uchar>, url: bool)
    requires Canonical(t, url)
    ensures Decode(t).Ok? && Encode(Decode(t).value, url) == t
    decreases |t|
  {
    hide EncodeChunk, DecodeChunk, CanonicalChunk;
    if t != [] {
      CanonicalChunkRoundTrip(t[..4], url, |t| == 4);
      CanonicalRoundTrip(t[4..], url);
      var x, y := DecodeChunk(t[..4]).value, Decode(t[4..]).value;
      assert FirstChunk(t, 4) == t[..4] && AfterChunk(t, 4) == t[4..];
      assert t == t[..4] + t[4..];
      if |t| == 4 {
        assert y == [] && x + y == x;
      } else {
        assert FirstChunk(x + y, 3) == x && AfterChunk(x + y, 3) == y;
      }
    }
  }

  /** The encoder's outputs are exactly the canonical texts. */
  lemma EncoderImage(t: seq<uchar>, url: bool)
    ensures Canonical(t, url) <==> exists b: seq<uchar> :: Encode(b, url) == t
  {
    hide Canonical, Encode;
    if Canonical(t, url) {
      CanonicalRoundTrip(t, url);
    }
    forall b: seq<uchar> | Encode(b, url) == t ensures Canonical(t, url) {
      EncodeIsCanonical(b, url);
    }
  }

  // ---------------------------------------------------------------- what the decoder accepts

  /** Chunk `k` of the text can be decoded: two accepted characters, then up to two more, each of them accepted
      unless it is absent, padding, or behind padding in third place. */
  predicate AcceptedAt(s: seq<uchar>, k: nat) {
    var p := 4 * k;
    && p + 1 < |s| && InAlphabets(s[p]) && InAlphabets(s[p + 1])
    && (p + 2 < |s| && !IsPad(s[p + 2]) ==>
          && InAlphabets(s[p + 2])
          && (p + 3 < |s| && !IsPad(s[p + 3]) ==> InAlphabets(s[p + 3])))
  }

  /** The bytes that the chunk at `s` yields: one less than its data characters. */
  function OutputLength(s: seq<uchar>): nat
    decreases |s|
  {
    if |s| < 2 then 0 else DataChars(FirstChunk(s, 4)) - 1 + OutputLength(AfterChunk(s, 4))
  }

  lemma AcceptedAtFirst(s: seq<uchar>)
    requires s != []
    ensures AcceptedAt(s, 0) <==> ChunkAccepted(FirstChunk(s, 4))
  {
    hide PosOfChar;
    var c := FirstChunk(s, 4);
    if AcceptedAt(s, 0) {
      assert forall i :: 0 <= i < DataChars(c) ==> InAlphabets(c[i]);
    }
    if ChunkAccepted(c) {
      assert InAlphabets(c[0]) && InAlphabets(c[1]);
      if |s| > 2 && !IsPad(s[2]) { assert InAlphabets(c[2]); }
      if |s| > 3 && !IsPad(s[2]) && !IsPad(s[3]) { assert InAlphabets(c[3]); }
    }
  }

  lemma AcceptedAtLater(s: seq<uchar>, k: nat)
    requires |s| > 4
    ensures AcceptedAt(s, k + 1) <==> AcceptedAt(s[4..], k)
  {
    hide PosOfChar;
  }

  /** Decoding returns normally exactly when every chunk is accepted, and then its length is the sum over chunks. */
  lemma {:induction false} ExactAcceptance(s: seq<uchar>)
    ensures Decode(s).Ok? <==> forall k: nat :: 4 * k < |s| ==> AcceptedAt(s, k)
    ensures Decode(s).Ok? ==> |Decode(s).value| == OutputLength(s)
    decreases |s|
  {
    hide PosOfChar, DecodeChunk, AcceptedAt, ChunkAccepted;
    if s != [] {
      AcceptedAtFirst(s);
      ChunkDecodes(FirstChunk(s, 4));
      ExactAcceptance(AfterChunk(s, 4));
      if |s| > 4 {
        forall k: nat ensures AcceptedAt(s, k + 1) <==> AcceptedAt(s[4..], k) { AcceptedAtLater(s, k); }
        if forall k: nat :: 4 * k < |s| ==> AcceptedAt(s, k) {
          assert AcceptedAt(s, 0);
          forall k: nat | 4 * k < |s[4..]| ensures AcceptedAt(s[4..], k) { assert AcceptedAt(s, k + 1); }
        }
        if AcceptedAt(s, 0) && forall k: nat :: 4 * k < |s[4..]| ==> AcceptedAt(s[4..], k) {
          forall k: nat | 4 * k < |s| ensures AcceptedAt(s, k) {
            if k > 0 { assert AcceptedAt(s[4..], k - 1); }
          }
        }
      } else {
        assert forall k: nat :: 4 * k < |s| ==> k == 0;
      }
    }
  }

  lemma ChunkDecodes(s: seq<uchar>)
    ensures DecodeChunk(s).Ok? <==> ChunkAccepted(s)
    ensures DecodeChunk(s).Ok? ==> |s| >= 2 && |DecodeChunk(s).value| == DataChars(s) - 1
    ensures DecodeChunk(s).Fail? ==> DecodeChunk(s).error == if |s| < 2 then OutOfRange else InvalidCharacter
  {
  }

  /** Text of whole chunks never yields more than the reserved `length / 4 * 3` bytes. */
  lemma {:induction false} OutputBound(s: seq<uchar>)
    requires |s| % 4 == 0
    ensures OutputLength(s) <= |s| / 4 * 3
    decreases |s|
  {
    if |s| > 4 {
      OutputBound(s[4..]);
    }
  }

  /** `std::out_of_range` is thrown exactly for a last chunk of one character behind accepted chunks;
      every other rejected text throws `std::runtime_error`. */
  lemma {:induction false} ErrorKind(s: seq<uchar>)
    ensures Decode(s) == Fail(OutOfRange) <==> |s| % 4 == 1 && Decode(s[..|s| - 1]).Ok?
    decreases |s|
  {
    hide DecodeChunk, FirstChunk, AfterChunk;
    if s != [] {
      var u := s[..|s| - 1];
      ChunkDecodes(FirstChunk(s, 4));
      SplitText(s, 4);
      if |s| > 4 {
        SplitText(u, 4);
        ErrorKind(s[4..]);
        assert u[4..] == s[4..][..|s| - 5];
        assert u[..4] == s[..4];
        if |s| == 5 { assert u[4..] == []; }
      }
    }
  }

  /** The bytes of an accepted chunk are the leading 8, 16 or 24 bits of its sextets. */
  lemma DecodeChunkBits(s: seq<uchar>)
    requires ChunkAccepted(s)
    ensures DecodeChunk(s).Ok?
    ensures SextetBits(ChunkSextets(s))[..8 * |DecodeChunk(s).value|] == Bits(DecodeChunk(s).value)
  {
    hide BitsOf, SextetBits, Bits, ToBytes;
    var p := ChunkSextets(s);
    BytesBits(p);
  }

  lemma BytesBits(p: seq<int>)
    requires 2 <= |p| <= 4 && AreSextets(p)
    ensures SextetBits(p)[..8 * (|p| - 1)] == Bits(ToBytes(p))
  {
    hide BitsOf, SextetBits, Bits, Byte1, Byte2, Byte3;
    UnfoldSextets(p);
    UnfoldBits(ToBytes(p));
    SextetPieces(p[0], p[1], if |p| > 2 then p[2] else 0, if |p| > 3 then p[3] else 0);
  }

  lemma SextetPieces(p: int, q: int, r: int, s: int)
    requires 0 <= p < 64 && 0 <= q < 64 && 0 <= r < 64 && 0 <= s < 64
    ensures (BitsOf(p, 6) + BitsOf(q, 6))[..8] == BitsOf(Byte1(p, q), 8)
    ensures (BitsOf(p, 6) + BitsOf(q, 6) + BitsOf(r, 6))[..16] == BitsOf(Byte1(p, q), 8) + BitsOf(Byte2(q, r), 8)
    ensures (BitsOf(p, 6) + BitsOf(q, 6) + BitsOf(r, 6) + BitsOf(s, 6))[..24]
         == BitsOf(Byte1(p, q), 8) + BitsOf(Byte2(q, r), 8) + BitsOf(Byte3(r, s), 8)
  {
    hide BitsOf, Byte1, Byte2, Byte3;
    ByteSources(p, q);
    ByteSources(q, r);
    ByteSources(r, s);
    Prefixes(BitsOf(p, 6), BitsOf(q, 6), BitsOf(r, 6), BitsOf(s, 6));
  }

  lemma Prefixes(a: seq<bool>, b: seq<bool>, c: seq<bool>, d: seq<bool>)
    requires |a| == |b| == |c| == |d| == 6
    ensures (a + b)[..8] == a + b[..2]
    ensures (a + b + c)[..16] == a + b[..2] + (b[2..] + c[..4])
    ensures (a + b + c + d)[..24] == a + b[..2] + (b[2..] + c[..4]) + (c[4..] + d)
  {
  }

  // ---------------------------------------------------------------- concatenation and alphabets

  /** Whole input groups are encoded independently of what follows. */
  lemma {:induction false} EncodeConcatenation(a: seq<uchar>, b: seq<uchar>, url: bool)
    requires |a| % 3 == 0
    ensures Encode(a + b, url) == Encode(a, url) + Encode(b, url)
    decreases |a|
  {
    hide EncodeChunk, FirstChunk, AfterChunk;
    if a == [] {
      assert a + b == b && [] + Encode(b, url) == Encode(b, url);
    } else {
      var c, r := FirstChunk(a, 3), AfterChunk(a, 3);
      SplitText(a, 3);
      SplitText(a + b, 3);
      assert FirstChunk(a + b, 3) == c && AfterChunk(a + b, 3) == r + b;
      EncodeConcatenation(r, b, url);
      Associate3(EncodeChunk(c, url), Encode(r, url), Encode(b, url));
    }
  }

  lemma Associate3(x: seq<uchar>, y: seq<uchar>, z: seq<uchar>)
    ensures x + (y + z) == x + y + z
  {
  }

  /** Whole chunks are decoded independently of what follows, even when they end in padding; the first rejected
      chunk decides the outcome. */
  lemma {:induction false} DecodeConcatenation(s: seq<uchar>, t: seq<uchar>)
    requires |s| % 4 == 0
    ensures Decode(s + t) == if Decode(s).Fail? then Decode(s) else Prepend(Decode(s).value, Decode(t))
    decreases |s|
  {
    hide DecodeChunk, FirstChunk, AfterChunk;
    if s == [] {
      assert s + t == t;
      if Decode(t).Ok? { assert [] + Decode(t).value == Decode(t).value; }
    } else {
      var c, r := FirstChunk(s, 4), AfterChunk(s, 4);
      SplitText(s, 4);
      SplitText(s + t, 4);
      assert FirstChunk(s + t, 4) == c && AfterChunk(s + t, 4) == r + t;
      DecodeConcatenation(r, t);
      if DecodeChunk(c).Ok? && Decode(r).Ok? && Decode(t).Ok? {
        Associate3(DecodeChunk(c).value, Decode(r).value, Decode(t).value);
      }
    }
  }

  /** The two spellings of the last two alphabet positions and of padding. */
  predicate SameSpelling(c: uchar, d: uchar) {
    || c == d
    || (c in {Code('+'), Code('-')} && d in {Code('+'), Code('-')})
    || (c in {Code('/'), Code('_')} && d in {Code('/'), Code('_')})
    || (c in {Code('='), Code('.')} && d in {Code('='), Code('.')})
  }

  ghost predicate SameText(s: seq<uchar>, t: seq<uchar>) {
    |s| == |t| && forall i :: 0 <= i < |s| ==> SameSpelling(s[i], t[i])
  }

  lemma SameSpellingMeans(c: uchar, d: uchar)
    requires SameSpelling(c, d)
    ensures PosOfChar(c) == PosOfChar(d) && IsPad(c) == IsPad(d)
  {
  }

  lemma SameChunk(s: seq<uchar>, t: seq<uchar>)
    requires SameText(s, t)
    ensures DecodeChunk(s) == DecodeChunk(t)
  {
    hide PosOfChar, IsPad, ToBytes, SameSpelling;
    forall i | 0 <= i < |s| ensures PosOfChar(s[i]) == PosOfChar(t[i]) && IsPad(s[i]) == IsPad(t[i]) {
      SameSpellingMeans(s[i], t[i]);
    }
    if |s| >= 2 {
      assert DataChars(s) == DataChars(t);
      if ChunkAccepted(s) {
        assert forall i :: 0 <= i < DataChars(t) ==> InAlphabets(s[i]);
        assert ChunkSextets(s) == ChunkSextets(t);
      } else {
        var i :| 0 <= i < DataChars(s) && !InAlphabets(s[i]);
        assert !InAlphabets(t[i]);
      }
    }
  }

  /** Exchanging '+' and '-', '/' and '_', or '=' and '.' anywhere never changes the decoding. */
  lemma {:induction false} AlphabetIndependence(s: seq<uchar>, t: seq<uchar>)
    requires SameText(s, t)
    ensures Decode(s) == Decode(t)
    decreases |s|
  {
    hide DecodeChunk, SameSpelling;
    if s != [] {
      SameChunk(FirstChunk(s, 4), FirstChunk(t, 4));
      AlphabetIndependence(AfterChunk(s, 4), AfterChunk(t, 4));
    }
  }

  // ---------------------------------------------------------------- the encoder's counter

  /** The encoder's `pos` after `k` iterations. */
  function CounterAfter(k: nat): uint32 {
    if k == 0 then 0 else Add32(CounterAfter(k - 1), 3)
  }

  lemma {:induction false} CounterExact(k: nat)
    requires 3 * k < 0x1_0000_0000
    ensures CounterAfter(k) == 3 * k
  {
    if k > 0 {
      CounterExact(k - 1);
    }
  }

  /** The loop condition `pos < in_len` becomes false after some number of iterations exactly when the length fits
      the counter; `2^32 - 1` is itself reached, being a multiple of three. For longer inputs the loop never ends. */
  lemma EncoderLoopEnds(inLen: nat)
    ensures (exists k :: CounterAfter(k) >= inLen) <==> inLen < 0x1_0000_0000
    ensures inLen < 0x1_0000_0000 ==> CounterAfter((inLen + 2) / 3) >= inLen
    ensures inLen < 0x1_0000_0000 ==> forall k: nat :: k < (inLen + 2) / 3 ==> CounterAfter(k) < inLen
  {
    if inLen < 0x1_0000_0000 {
      CounterExact((inLen + 2) / 3);
      forall k: nat | k < (inLen + 2) / 3 ensures CounterAfter(k) < inLen {
        CounterExact(k);
      }
    }
  }
}
