/**
  The base64 codec of base64.cpp.

  Text and data are both `std::string` in the source, so both are sequences of 8-bit characters here.
  `Encode` and `Decode` are the reference functions: they read a chunk as one 24-bit group, as sections 4 and 5
  of RFC 4648 do. The methods keep the source's loops and branches and are proved equal to the references.
  Masks and shifts are written as divisions and remainders by powers of two; `EncoderMasks` and `DecoderMasks`
  prove on bit vectors that every mask expression of the source is the arithmetic one used here.
 */
module Base64 {
  import opened Common

  type uchar = x: int | 0 <= x < 256 witness 0

  /** The two exceptions that decoding can throw: `std::runtime_error` and `std::out_of_range`. */
  datatype Error = InvalidCharacter | OutOfRange

  datatype Result<+T> = Ok(value: T) | Fail(error: Error)

  const NEWLINE: uchar := 10

  // ---------------------------------------------------------------- alphabets

  function Code(c: char): uchar
    requires c as int < 256
  {
    c as int
  }

  /** The character at position `i` of the chosen alphabet: A-Z, a-z, 0-9, then "+/" or "-_". */
  function CharOf(url: bool, i: int): uchar
    requires 0 <= i < 64
  {
    if i < 26 then Code('A') + i
    else if i < 52 then Code('a') + i - 26
    else if i < 62 then Code('0') + i - 52
    else if i == 62 then Code(if url then '-' else '+')
    else Code(if url then '_' else '/')
  }

  function TrailingChar(url: bool): uchar { Code(if url then '.' else '=') }

  predicate IsPad(c: uchar) { c == Code('=') || c == Code('.') }

  /** The position of a character in either alphabet; any other character makes the source throw. */
  function PosOfChar(c: uchar): (r: Result<int>)
    ensures r.Ok? ==> 0 <= r.value < 64
    ensures r.Fail? ==> r.error == InvalidCharacter
  {
    if Code('A') <= c <= Code('Z') then Ok(c - Code('A'))
    else if Code('a') <= c <= Code('z') then Ok(c - Code('a') + (Code('Z') - Code('A')) + 1)
    else if Code('0') <= c <= Code('9') then Ok(c - Code('0') + (Code('Z') - Code('A')) + (Code('z') - Code('a')) + 2)
    else if c == Code('+') || c == Code('-') then Ok(62)
    else if c == Code('/') || c == Code('_') then Ok(63)
    else Fail(InvalidCharacter)
  }

  predicate InAlphabets(c: uchar) { PosOfChar(c).Ok? }

  /** The six bits that an accepted character stands for. */
  function Sextet(c: uchar): (p: int)
    requires InAlphabets(c)
    ensures 0 <= p < 64
  {
    PosOfChar(c).value
  }

  // ---------------------------------------------------------------- chunks

  /** The chunk of at most `size` characters at the front. */
  function FirstChunk(s: seq<uchar>, size: nat): (r: seq<uchar>)
    ensures |r| == if |s| <= size then |s| else size
  {
    if |s| <= size then s else s[..size]
  }

  function AfterChunk(s: seq<uchar>, size: nat): (r: seq<uchar>)
    ensures |r| == if |s| <= size then 0 else |s| - size
  {
    if |s| <= size then [] else s[size..] }

  /** The chunk that starts at `pos`, and what follows it. */
  lemma ChunkAt(s: seq<uchar>, pos: nat, size: nat)
    requires pos < |s|
    ensures var c := FirstChunk(AfterChunk(s, pos), size);
            && |c| == (if |s| - pos < size then |s| - pos else size)
            && forall i :: 0 <= i < |c| ==> c[i] == s[pos + i]
    ensures AfterChunk(AfterChunk(s, pos), size) == AfterChunk(s, pos + size)
  {
  }

  lemma AfterEnd(s: seq<uchar>, pos: nat)
    requires |s| <= pos
    ensures AfterChunk(s, pos) == []
  {
  }

  // ---------------------------------------------------------------- reference encoder

  /** The sextets of one, two and three bytes, in the source's own expressions. */
  function Sextets1(x: uchar): (p: seq<int>)
    ensures |p| == 2 && AreSextets(p)
  {
    [x / 4, x % 4 * 16]
  }

  function Sextets2(x: uchar, y: uchar): (p: seq<int>)
    ensures |p| == 3 && AreSextets(p)
  {
    [x / 4, x % 4 * 16 + y / 16, y % 16 * 4]
  }

  function Sextets3(x: uchar, y: uchar, z: uchar): (p: seq<int>)
    ensures |p| == 4 && AreSextets(p)
  {
    [x / 4, x % 4 * 16 + y / 16, y % 16 * 4 + z / 64, z % 64]
  }

  predicate AreSextets(p: seq<int>) { forall i :: 0 <= i < |p| ==> 0 <= p[i] < 64 }

  function ToSextets(b: seq<uchar>): (p: seq<int>)
    requires 1 <= |b| <= 3
    ensures |p| == |b| + 1 && AreSextets(p)
  {
    if |b| == 1 then Sextets1(b[0])
    else if |b| == 2 then Sextets2(b[0], b[1])
    else Sextets3(b[0], b[1], b[2])
  }

  function CharsOf(p: seq<int>, url: bool): (t: seq<uchar>)
    requires AreSextets(p)
    ensures |t| == |p| && forall i :: 0 <= i < |p| ==> t[i] == CharOf(url, p[i])
  {
    seq(|p|, i requires 0 <= i < |p| => CharOf(url, p[i]))
  }

  function Padding(n: nat, url: bool): seq<uchar> { seq(n, _ => TrailingChar(url)) }

  /** One input group of one to three bytes, spelled in the chosen alphabet and padded to four characters. */
  function EncodeChunk(b: seq<uchar>, url: bool): (t: seq<uchar>)
    requires 1 <= |b| <= 3
    ensures |t| == 4
  {
    CharsOf(ToSextets(b), url) + Padding(3 - |b|, url)
  }

  function Encode(b: seq<uchar>, url: bool): seq<uchar>
    decreases |b|
  {
    if b == [] then [] else EncodeChunk(FirstChunk(b, 3), url) + Encode(AfterChunk(b, 3), url)
  }

  // ---------------------------------------------------------------- reference decoder

  /** How many characters of a chunk carry data: padding in third place hides the fourth character. */
  function DataChars(s: seq<uchar>): (k: nat)
    requires |s| >= 2
    ensures 2 <= k <= 4 && k <= |s|
  {
    if |s| < 3 || IsPad(s[2]) then 2
    else if |s| < 4 || IsPad(s[3]) then 3
    else 4
  }

  predicate ChunkAccepted(s: seq<uchar>) {
    |s| >= 2 && forall i :: 0 <= i < DataChars(s) ==> InAlphabets(s[i])
  }

  /** The sextets carried by the data characters of an accepted chunk. */
  function ChunkSextets(s: seq<uchar>): (p: seq<int>)
    requires ChunkAccepted(s)
    ensures |p| == DataChars(s) && AreSextets(p)
  {
    seq(DataChars(s), i requires 0 <= i < DataChars(s) => Sextet(s[i]))
  }

  /** The three bytes of a chunk, each from the sextets that hold its bits. */
  function Byte1(p: int, q: int): uchar
    requires 0 <= p < 64 && 0 <= q < 64
  {
    p * 4 + q / 16
  }

  function Byte2(p: int, q: int): uchar
    requires 0 <= p < 64 && 0 <= q < 64
  {
    p % 16 * 16 + q / 4
  }

  function Byte3(p: int, q: int): uchar
    requires 0 <= p < 64 && 0 <= q < 64
  {
    p % 4 * 64 + q
  }

  function ToBytes(p: seq<int>): (b: seq<uchar>)
    requires 2 <= |p| <= 4 && AreSextets(p)
    ensures |b| == |p| - 1
  {
    if |p| == 2 then [Byte1(p[0], p[1])]
    else if |p| == 3 then [Byte1(p[0], p[1]), Byte2(p[1], p[2])]
    else [Byte1(p[0], p[1]), Byte2(p[1], p[2]), Byte3(p[2], p[3])]
  }

  function DecodeChunk(s: seq<uchar>): (r: Result<seq<uchar>>)
    ensures r.Ok? ==> ChunkAccepted(s) && |r.value| == DataChars(s) - 1
  {
    if |s| < 2 then Fail(OutOfRange)
    else if !ChunkAccepted(s) then Fail(InvalidCharacter)
    else Ok(ToBytes(ChunkSextets(s)))
  }

  /** What a decoder that has already produced `x` returns when the rest of its input yields `r`. */
  function Prepend(x: seq<uchar>, r: Result<seq<uchar>>): Result<seq<uchar>> {
    if r.Ok? then Ok(x + r.value) else r
  }

  function Decode(s: seq<uchar>): Result<seq<uchar>>
    decreases |s|
  {
    if s == [] then Ok([])
    else
      var head := DecodeChunk(FirstChunk(s, 4));
      if head.Fail? then head else Prepend(head.value, Decode(AfterChunk(s, 4)))
  }

  // ---------------------------------------------------------------- the imperative encoder

  /** Addition of `unsigned int`, which wraps around. */
  function Add32(x: uint32, y: uint32): uint32 {
    if x + y < 0x1_0000_0000 then x + y else x + y - 0x1_0000_0000
  }

  /** The mask and shift expressions of the encoder. */
  lemma EncoderMasks(b: bv8)
    ensures ((b & 0xfc) >> 2) as int == b as int / 4
    ensures ((b & 0x03) << 4) as int == b as int % 4 * 16
    ensures ((b & 0xf0) >> 4) as int == b as int / 16
    ensures ((b & 0x0f) << 2) as int == b as int % 16 * 4
    ensures ((b & 0xc0) >> 6) as int == b as int / 64
    ensures (b & 0x3f) as int == b as int % 64
  {
  }

  /** Pushing the characters of a chunk one by one, in the source's own expressions, appends the encoded chunk. */
  lemma EncodeChunk1(done: seq<uchar>, b: seq<uchar>, url: bool)
    requires |b| == 1
    ensures done + [CharOf(url, b[0] / 4)] + [CharOf(url, b[0] % 4 * 16)] + [TrailingChar(url)] + [TrailingChar(url)]
         == done + EncodeChunk(b, url)
  {
  }

  lemma EncodeChunk2(done: seq<uchar>, b: seq<uchar>, url: bool)
    requires |b| == 2
    ensures done + [CharOf(url, b[0] / 4)] + [CharOf(url, b[0] % 4 * 16 + b[1] / 16)]
                 + [CharOf(url, b[1] % 16 * 4)] + [TrailingChar(url)]
         == done + EncodeChunk(b, url)
  {
  }

  lemma EncodeChunk3(done: seq<uchar>, b: seq<uchar>, url: bool)
    requires |b| == 3
    ensures done + [CharOf(url, b[0] / 4)] + [CharOf(url, b[0] % 4 * 16 + b[1] / 16)]
                 + [CharOf(url, b[1] % 16 * 4 + b[2] / 64)] + [CharOf(url, b[2] % 64)]
         == done + EncodeChunk(b, url)
  {
  }

  /** The 32-bit counter does not wrap at a multiple of three below `2^32 - 1`, itself a multiple of three. */
  lemma CounterStep(pos: uint32)
    requires pos < 0x1_0000_0000 - 1 && exists k :: pos == 3 * k
    ensures Add32(pos, 1) == pos + 1 && Add32(pos, 2) == pos + 2 && Add32(pos, 3) == pos + 3
  {
  }

  lemma EncodeStart(b: seq<uchar>, url: bool)
    ensures [] + Encode(AfterChunk(b, 0), url) == Encode(b, url) && Encode([], url) == []
  {
    assert AfterChunk(b, 0) == b;
  }

  lemma EncodeStep(done: seq<uchar>, rest: seq<uchar>, url: bool)
    requires rest != []
    ensures done + EncodeChunk(FirstChunk(rest, 3), url) + Encode(AfterChunk(rest, 3), url) == done + Encode(rest, url)
  {
    var c, e := EncodeChunk(FirstChunk(rest, 3), url), Encode(AfterChunk(rest, 3), url);
    assert done + c + e == done + (c + e);
  }

  /** `base64_encode`. The counter `pos` is a 32-bit unsigned integer although the length is a `size_t`:
      see `EncoderLoopEnds` for why the length must fit the counter. */
  method EncodeBytes(bytes: seq<uchar>, url: bool) returns (ret: seq<uchar>)
    requires |bytes| < 0x1_0000_0000
    ensures ret == Encode(bytes, url)
  {
    hide *;
    EncodeStart(bytes, url);
    var trailingChar := TrailingChar(url);
    ret := [];
    var pos: uint32 := 0;
    ghost var chunks := 0;
    while pos < |bytes|
      invariant pos == 3 * chunks
      invariant ret + Encode(AfterChunk(bytes, pos), url) == Encode(bytes, url)
      decreases |bytes| - pos
    {
      ghost var done, rest := ret, AfterChunk(bytes, pos);
      ghost var b := FirstChunk(rest, 3);
      ChunkAt(bytes, pos, 3);
      EncodeStep(done, rest, url);
      CounterStep(pos);
      ret := ret + [CharOf(url, bytes[pos] / 4)];
      if Add32(pos, 1) < |bytes| {
        ret := ret + [CharOf(url, bytes[pos] % 4 * 16 + bytes[Add32(pos, 1)] / 16)];
        if Add32(pos, 2) < |bytes| {
          ret := ret + [CharOf(url, bytes[Add32(pos, 1)] % 16 * 4 + bytes[Add32(pos, 2)] / 64)];
          ret := ret + [CharOf(url, bytes[Add32(pos, 2)] % 64)];
          EncodeChunk3(done, b, url);
        } else {
          ret := ret + [CharOf(url, bytes[Add32(pos, 1)] % 16 * 4)];
          ret := ret + [trailingChar];
          EncodeChunk2(done, b, url);
        }
      } else {
        ret := ret + [CharOf(url, bytes[pos] % 4 * 16)];
        ret := ret + [trailingChar];
        ret := ret + [trailingChar];
        EncodeChunk1(done, b, url);
      }
      pos := Add32(pos, 3);
      chunks := chunks + 1;
    }
    AfterEnd(bytes, pos);
  }

  // ---------------------------------------------------------------- the imperative decoder

  /** The mask and shift expressions of the decoder, on positions below 64. */
  lemma DecoderMasks(p: bv32)
    requires p < 64
    ensures (p << 2) as int == p as int * 4
    ensures ((p & 0x30) >> 4) as int == p as int / 16
    ensures ((p & 0x0f) << 4) as int == p as int % 16 * 16
    ensures ((p & 0x3c) >> 2) as int == p as int / 4
    ensures ((p & 0x03) << 6) as int == p as int % 4 * 64
  {
  }

  /** Pushing the bytes of an accepted chunk one by one, in the source's own expressions, appends its decoding. */
  lemma DecodeChunk2(done: seq<uchar>, s: seq<uchar>)
    requires |s| >= 2 && InAlphabets(s[0]) && InAlphabets(s[1]) && (|s| == 2 || IsPad(s[2]))
    ensures DecodeChunk(s).Ok?
    ensures done + DecodeChunk(s).value == done + [Sextet(s[0]) * 4 + Sextet(s[1]) / 16]
  {
    hide InAlphabets, Sextet;
  }

  lemma DecodeChunk3(done: seq<uchar>, s: seq<uchar>)
    requires |s| >= 3 && InAlphabets(s[0]) && InAlphabets(s[1]) && InAlphabets(s[2])
    requires !IsPad(s[2]) && (|s| == 3 || IsPad(s[3]))
    ensures DecodeChunk(s).Ok?
    ensures done + DecodeChunk(s).value ==
            done + [Sextet(s[0]) * 4 + Sextet(s[1]) / 16] + [Sextet(s[1]) % 16 * 16 + Sextet(s[2]) / 4]
  {
    hide InAlphabets, Sextet;
  }

  lemma DecodeChunk4(done: seq<uchar>, s: seq<uchar>)
    requires |s| == 4 && !IsPad(s[2]) && !IsPad(s[3]) && forall i :: 0 <= i < 4 ==> InAlphabets(s[i])
    ensures DecodeChunk(s).Ok?
    ensures done + DecodeChunk(s).value ==
            done + [Sextet(s[0]) * 4 + Sextet(s[1]) / 16] + [Sextet(s[1]) % 16 * 16 + Sextet(s[2]) / 4]
                 + [Sextet(s[2]) % 4 * 64 + Sextet(s[3])]
  {
    hide InAlphabets, Sextet;
  }

  lemma DecodeStart(s: seq<uchar>, done: seq<uchar>)
    ensures Prepend([], Decode(AfterChunk(s, 0))) == Decode(s) && Prepend(done, Decode([])) == Ok(done)
  {
    assert done + [] == done && AfterChunk(s, 0) == s;
    if Decode(s).Ok? {
      assert [] + Decode(s).value == Decode(s).value;
    }
  }

  lemma DecodeStep(done: seq<uchar>, rest: seq<uchar>)
    requires rest != []
    ensures var head := DecodeChunk(FirstChunk(rest, 4));
            Prepend(done, Decode(rest)) ==
            if head.Fail? then head else Prepend(done + head.value, Decode(AfterChunk(rest, 4)))
  {
    var head, tail := DecodeChunk(FirstChunk(rest, 4)), Decode(AfterChunk(rest, 4));
    if head.Ok? && tail.Ok? {
      assert done + head.value + tail.value == done + (head.value + tail.value);
    }
  }

  lemma ChunkFails(s: seq<uchar>)
    ensures |s| < 2 ==> DecodeChunk(s) == Fail(OutOfRange)
    ensures |s| >= 2 && (exists i :: 0 <= i < DataChars(s) && !InAlphabets(s[i])) ==> DecodeChunk(s) == Fail(InvalidCharacter)
  {
  }

  /** `decode` without line-break removal. A thrown exception ends the method with the matching `Fail`.
      That each pushed value is a `uchar` shows that no cast to a character loses bits. */
  method DecodeText(s: seq<uchar>) returns (r: Result<seq<uchar>>)
    ensures r == Decode(s)
  {
    hide Decode, Prepend, PosOfChar, DecodeChunk, ChunkAccepted, FirstChunk, AfterChunk;
    DecodeStart(s, []);
    var pos := 0;
    var ret: seq<uchar> := [];
    while pos < |s|
      invariant 0 <= pos
      invariant Prepend(ret, Decode(AfterChunk(s, pos))) == Decode(s)
    {
      ghost var done, rest := ret, AfterChunk(s, pos);
      ghost var c := FirstChunk(rest, 4);
      ChunkAt(s, pos, 4);
      DecodeStep(done, rest);
      ChunkFails(c);
      if pos + 1 >= |s| { return Fail(OutOfRange); }
      var pos1 := PosOfChar(s[pos + 1]);
      if pos1.Fail? { assert !InAlphabets(c[1]); return Fail(pos1.error); }
      var pos0 := PosOfChar(s[pos]);
      if pos0.Fail? { assert !InAlphabets(c[0]); return Fail(pos0.error); }
      ret := ret + [pos0.value * 4 + pos1.value / 16];
      if pos + 2 < |s| && s[pos + 2] != Code('=') && s[pos + 2] != Code('.') {
        var pos2 := PosOfChar(s[pos + 2]);
        if pos2.Fail? { assert !InAlphabets(c[2]); return Fail(pos2.error); }
        ret := ret + [pos1.value % 16 * 16 + pos2.value / 4];
        if pos + 3 < |s| && s[pos + 3] != Code('=') && s[pos + 3] != Code('.') {
          var pos3 := PosOfChar(s[pos + 3]);
          if pos3.Fail? { assert !InAlphabets(c[3]); return Fail(pos3.error); }
          ret := ret + [pos2.value % 4 * 64 + pos3.value];
          DecodeChunk4(done, c);
        } else {
          DecodeChunk3(done, c);
        }
      } else {
        DecodeChunk2(done, c);
      }
      pos := pos + 4;
    }
    AfterEnd(s, pos);
    DecodeStart([], ret);
    return Ok(ret);
  }

  // ---------------------------------------------------------------- removing line breaks

  /** The characters that `std::remove` keeps. */
  function WithoutNewlines(s: seq<uchar>): (t: seq<uchar>)
    ensures forall i :: 0 <= i < |t| ==> t[i] != NEWLINE
  {
    if s == [] then []
    else (if s[0] == NEWLINE then [] else [s[0]]) + WithoutNewlines(s[1..])
  }

  /** `base64_decode`. */
  method Base64Decode(s: seq<uchar>, removeLinebreaks: bool) returns (r: Result<seq<uchar>>)
    ensures r == Decode(if removeLinebreaks then WithoutNewlines(s) else s)
    decreases removeLinebreaks
  {
    if s == [] { return Ok([]); }
    if removeLinebreaks {
      var copy := WithoutNewlines(s);
      r := Base64Decode(copy, false);
      return;
    }
    r := DecodeText(s);
  }
}
