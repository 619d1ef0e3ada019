/** The characters of base64.cpp: what the encoder writes and the decoder reads, against the tables written out. */
module Alphabets {
  import opened Base64
  import opened Base64Laws

  // ---------------------------------------------------------------- the tables

  const UPPER := "ABCDEFGHIJKLMNOPQRSTUVWXYZ"
  const LOWER := "abcdefghijklmnopqrstuvwxyz"
  const DIGITS := "0123456789"

  /** `base64_chars`. */
  function Table(url: bool): (t: string)
    ensures |t| == 64
  {
    UPPER + LOWER + DIGITS + if url then "-_" else "+/"
  }

  lemma UpperAt(i: nat)
    requires i < 26
    ensures UPPER[i] as int == 'A' as int + i
  {
  }

  lemma LowerAt(i: nat)
    requires i < 26
    ensures LOWER[i] as int == 'a' as int + i
  {
  }

  lemma DigitAt(i: nat)
    requires i < 10
    ensures DIGITS[i] as int == '0' as int + i
  {
  }

  lemma TableAt(url: bool, i: nat)
    requires i < 64
    ensures i < 26 ==> Table(url)[i] == UPPER[i]
    ensures 26 <= i < 52 ==> Table(url)[i] == LOWER[i - 26]
    ensures 52 <= i < 62 ==> Table(url)[i] == DIGITS[i - 52]
    ensures i == 62 ==> Table(url)[i] == if url then '-' else '+'
    ensures i == 63 ==> Table(url)[i] == if url then '_' else '/'
  {
  }

  /** The encoder writes position `i` of the chosen table for the sextet `i`. */
  lemma EncoderWritesTable(url: bool, i: nat)
    requires i < 64
    ensures CharOf(url, i) == Table(url)[i] as int
  {
    hide Table;
    TableAt(url, i);
    if i < 26 {
      UpperAt(i);
    } else if i < 52 {
      LowerAt(i - 26);
    } else if i < 62 {
      DigitAt(i - 52);
    }
  }

  /** The decoder reads `i` from exactly the characters at position `i` of one of the tables, and rejects every
      character that is in neither. */
  lemma DecoderReadsTables(c: uchar)
    ensures forall i :: PosOfChar(c) == Ok(i) <==>
              0 <= i < 64 && (c == Table(false)[i] as int || c == Table(true)[i] as int)
    ensures PosOfChar(c) == Fail(InvalidCharacter) <==>
              forall i :: 0 <= i < 64 ==> c != Table(false)[i] as int && c != Table(true)[i] as int
  {
    hide Table, CharOf, PosOfChar;
    forall i | 0 <= i < 64
      ensures PosOfChar(c) == Ok(i) <==> c == Table(false)[i] as int || c == Table(true)[i] as int
    {
      EncoderWritesTable(false, i);
      EncoderWritesTable(true, i);
      CharRoundTrip(false, i);
      CharRoundTrip(true, i);
      ReadsBack(c, i);
    }
    if PosOfChar(c).Ok? {
      var i := PosOfChar(c).value;
      assert PosOfChar(c) == Ok(i);
    }
  }

  lemma ReadsBack(c: uchar, i: nat)
    requires i < 64
    ensures PosOfChar(c) == Ok(i) ==> c == CharOf(false, i) || c == CharOf(true, i)
  {
  }

  /** Padding and newlines. */
  lemma OtherCharacters(c: uchar)
    ensures TrailingChar(false) == '=' as int && TrailingChar(true) == '.' as int
    ensures IsPad(c) <==> c == '=' as int || c == '.' as int
    ensures NEWLINE == 10
  {
  }

  // ---------------------------------------------------------------- encoding and decoding over the tables

  lemma {:induction false} TextBitsOfSextets(t: seq<uchar>, p: seq<int>)
    requires |t| == |p| && AreSextets(p)
    requires forall i :: 0 <= i < |t| ==> PosOfChar(t[i]) == Ok(p[i])
    ensures forall i :: 0 <= i < |t| ==> InAlphabets(t[i])
    ensures TextBits(t) == SextetBits(p)
  {
    hide BitsOf, PosOfChar;
    if t != [] {
      TextBitsOfSextets(t[1..], p[1..]);
    }
  }

  /** Section 4 of RFC 4648, with the alphabets written out: the encoding has `(n + 2) / 3 * 4` characters; the first of
      them are the table's characters for sextets that are the input's bits in order, filled with zeros to a whole
      sextet; and the rest are '=', or '.' in the URL form. */
  lemma EncodeMeans(b: seq<uchar>, url: bool) returns (p: seq<int>)
    ensures AreSextets(p) && 6 * (|p| - 1) < 8 * |b| <= 6 * |p| && |p| <= |Encode(b, url)| == (|b| + 2) / 3 * 4
    ensures SextetBits(p) == Bits(b) + Zeros(6 * |p| - 8 * |b|)
    ensures forall i :: 0 <= i < |p| ==> Encode(b, url)[i] == Table(url)[p[i]] as int
    ensures forall i :: |p| <= i < |Encode(b, url)| ==> Encode(b, url)[i] == (if url then '.' else '=') as int
  {
    hide Encode, CharOf, PosOfChar, Bits, Zeros, TextBits, SextetBits;
    EncodeSpells(b, url);
    var t, k := Encode(b, url), DataLength(|b|);
    p := seq(k, i requires 0 <= i < k => Sextet(t[i]));
    forall i | 0 <= i < k ensures t[i] == Table(url)[p[i]] as int { EncoderWritesTable(url, p[i]); }
    TextBitsOfSextets(t[..k], p);
    OtherCharacters(0);
  }

  /** A character of one of the tables. */
  predicate Readable(c: uchar) {
    exists i :: 0 <= i < 64 && (c == Table(false)[i] as int || c == Table(true)[i] as int)
  }

  predicate PadSign(c: uchar) { c == '=' as int || c == '.' as int }

  /** What the decoder accepts of a chunk that starts at `p`. */
  predicate ReadableAt(s: seq<uchar>, p: nat) {
    && p + 1 < |s| && Readable(s[p]) && Readable(s[p + 1])
    && (p + 2 < |s| && !PadSign(s[p + 2]) ==>
          && Readable(s[p + 2])
          && (p + 3 < |s| && !PadSign(s[p + 3]) ==> Readable(s[p + 3])))
  }

  lemma ReadableMeans(c: uchar)
    ensures InAlphabets(c) <==> Readable(c)
    ensures IsPad(c) <==> PadSign(c)
  {
    DecoderReadsTables(c);
    OtherCharacters(c);
    hide Table, PosOfChar;
    if Readable(c) {
      var i :| 0 <= i < 64 && (c == Table(false)[i] as int || c == Table(true)[i] as int);
      assert PosOfChar(c) == Ok(i);
    }
    if InAlphabets(c) {
      assert PosOfChar(c) == Ok(PosOfChar(c).value);
    }
  }

  lemma AcceptedMeans(s: seq<uchar>, k: nat)
    ensures AcceptedAt(s, k) <==> ReadableAt(s, 4 * k)
  {
    hide InAlphabets, IsPad, Readable, PadSign;
    forall i | 0 <= i < |s| ensures (InAlphabets(s[i]) <==> Readable(s[i])) && (IsPad(s[i]) <==> PadSign(s[i])) {
      ReadableMeans(s[i]);
    }
  }

  /** The decoder's exact acceptance over the tables: every chunk has two characters of a table, and each later one is
      in a table, absent, '=' or '.', or behind such a sign in third place. */
  lemma DecodeAccepts(s: seq<uchar>)
    ensures Decode(s).Ok? <==> forall k: nat :: 4 * k < |s| ==> ReadableAt(s, 4 * k)
  {
    ExactAcceptance(s);
    hide Decode, AcceptedAt, ReadableAt;
    forall k: nat ensures AcceptedAt(s, k) <==> ReadableAt(s, 4 * k) { AcceptedMeans(s, k); }
  }

  lemma OneChunk(b: seq<uchar>, url: bool)
    requires 1 <= |b| <= 3
    ensures Encode(b, url) == EncodeChunk(b, url)
    ensures Decode(Encode(b, url)) == Ok(b)
  {
    assert EncodeChunk(b, url) + [] == EncodeChunk(b, url);
    EncodeSpells(b, url);
    RoundTrip(b, url, |Encode(b, url)|);
    assert Encode(b, url)[..|Encode(b, url)|] == Encode(b, url);
  }

  /** "Man" is "TWFu", both ways, and an input that needs both special characters and padding. */
  lemma Examples()
    ensures Encode([77, 97, 110], false) == ['T' as int, 'W' as int, 'F' as int, 'u' as int]
    ensures Decode(['T' as int, 'W' as int, 'F' as int, 'u' as int]) == Ok([77, 97, 110])
    ensures Encode([251, 240], false) == ['+' as int, '/' as int, 'A' as int, '=' as int]
    ensures Encode([251, 240], true) == ['-' as int, '_' as int, 'A' as int, '.' as int]
  {
    hide Encode, Decode;
    OneChunk([77, 97, 110], false);
    assert ToSextets([77, 97, 110]) == [19, 22, 5, 46];
    OneChunk([251, 240], false);
    OneChunk([251, 240], true);
    assert ToSextets([251, 240]) == [62, 63, 0];
  }
}
