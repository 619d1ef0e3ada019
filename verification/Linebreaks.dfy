/** The PEM and MIME forms of base64.cpp: encoded text broken into lines of at most 64 or 76 characters. */
module Linebreaks {
  import opened Base64
  import opened Base64Laws

  const PEM_LINE: nat := 64
  const MIME_LINE: nat := 76

  /** The text with a newline after every `d` characters that something follows. */
  function Wrap(s: seq<uchar>, d: nat): seq<uchar>
    requires d > 0
  {
    if |s| <= d then s else s[..d] + [NEWLINE] + Wrap(s[d..], d)
  }

  /** `insert_linebreaks`: inserts into the string that the loop is scanning. The loop ends because
      `str.size() - pos` drops by `distance` although the string grows. */
  method InsertLinebreaks(s: seq<uchar>, distance: nat) returns (str: seq<uchar>)
    requires distance > 0
    ensures str == Wrap(s, distance)
  {
    str := s;
    if |str| == 0 { return []; }
    var pos := distance;
    assert str[..0] + Wrap(str[0..], distance) == Wrap(s, distance) by { assert str[0..] == str; }
    while pos < |str|
      invariant pos >= distance
      invariant pos - distance <= |str| && str[..pos - distance] + Wrap(str[pos - distance..], distance) == Wrap(s, distance)
      decreases |str| - pos
    {
      ghost var before, line := str[..pos - distance], str[pos - distance..];
      InsertStep(before, line, distance);
      assert str == before + line;
      str := str[..pos] + [NEWLINE] + str[pos..];
      assert str == before + line[..distance] + [NEWLINE] + line[distance..];
      pos := pos + distance + 1;
      assert str[..pos - distance] == before + line[..distance] + [NEWLINE];
      assert str[pos - distance..] == line[distance..];
    }
    assert str == str[..pos - distance] + str[pos - distance..];
  }

  lemma InsertStep(before: seq<uchar>, line: seq<uchar>, d: nat)
    requires 0 < d < |line|
    ensures before + Wrap(line, d) == before + line[..d] + [NEWLINE] + Wrap(line[d..], d)
  {
    var l, w := line[..d], Wrap(line[d..], d);
    assert before + (l + [NEWLINE] + w) == before + l + [NEWLINE] + w;
  }

  /** `encode_with_line_breaks`, which `base64_encode_pem` and `base64_encode_mime` call with 64 and 76. */
  method EncodeWithLineBreaks(bytes: seq<uchar>, lineLength: nat) returns (t: seq<uchar>)
    requires |bytes| < 0x1_0000_0000 && lineLength > 0
    ensures t == Wrap(Encode(bytes, false), lineLength)
  {
    var encoded := EncodeBytes(bytes, false);
    t := InsertLinebreaks(encoded, lineLength);
  }

  // ---------------------------------------------------------------- laws

  predicate NoNewline(s: seq<uchar>) { forall i :: 0 <= i < |s| ==> s[i] != NEWLINE }

  lemma {:induction false} WithoutNewlinesConcatenate(s: seq<uchar>, t: seq<uchar>)
    ensures WithoutNewlines(s + t) == WithoutNewlines(s) + WithoutNewlines(t)
  {
    if s == [] {
      assert s + t == t && [] + WithoutNewlines(t) == WithoutNewlines(t);
    } else {
      WithoutNewlinesConcatenate(s[1..], t);
      assert (s + t)[1..] == s[1..] + t && (s + t)[0] == s[0];
      Associate3(if s[0] == NEWLINE then [] else [s[0]], WithoutNewlines(s[1..]), WithoutNewlines(t));
    }
  }

  lemma {:induction false} WithoutNewlinesSame(s: seq<uchar>)
    requires NoNewline(s)
    ensures WithoutNewlines(s) == s
  {
    if s != [] {
      WithoutNewlinesSame(s[1..]);
    }
  }

  lemma WrapUnfold(s: seq<uchar>, d: nat)
    requires d > 0
    ensures |s| <= d ==> Wrap(s, d) == s
    ensures |s| > d ==> Wrap(s, d) == s[..d] + [NEWLINE] + Wrap(s[d..], d) && s[..d] + s[d..] == s
  {
  }

  lemma {:induction false} Unwrap(s: seq<uchar>, d: nat)
    requires d > 0 && NoNewline(s)
    ensures WithoutNewlines(Wrap(s, d)) == s
  {
    WrapUnfold(s, d);
    if |s| <= d {
      WithoutNewlinesSame(s);
    } else {
      var line, w := s[..d], Wrap(s[d..], d);
      Unwrap(s[d..], d);
      WithoutNewlinesSame(line);
      assert WithoutNewlines([NEWLINE]) == [];
      hide Wrap, WithoutNewlines;
      WithoutNewlinesConcatenate(line + [NEWLINE], w);
      WithoutNewlinesConcatenate(line, [NEWLINE]);
      assert line + [] == line;
    }
  }

  lemma EncodedHasNoNewline(b: seq<uchar>, url: bool)
    ensures NoNewline(Encode(b, url))
  {
    hide PosOfChar, CharOf, Encode;
    EncodeSpells(b, url);
    var t := Encode(b, url);
    forall i | 0 <= i < |t| ensures t[i] != NEWLINE {
      if i < DataLength(|b|) { AlphabetIsNotPad(t[i]); }
    }
  }

  /** Decoding wrapped text with `remove_linebreaks` returns the input, for every line length. */
  lemma WrappedRoundTrip(b: seq<uchar>, d: nat)
    requires d > 0
    ensures Decode(WithoutNewlines(Wrap(Encode(b, false), d))) == Ok(b)
  {
    EncodedHasNoNewline(b, false);
    var t := Encode(b, false);
    Unwrap(t, d);
    EncodeSpells(b, false);
    RoundTrip(b, false, |t|);
    assert t[..|t|] == t;
  }

  /** The lines between the newlines of a text. */
  function Lines(t: seq<uchar>): (l: seq<seq<uchar>>)
    ensures |l| > 0
  {
    if t == [] then [[]]
    else
      var l := Lines(t[1..]);
      if t[0] == NEWLINE then [[]] + l else [[t[0]] + l[0]] + l[1..]
  }

  lemma {:induction false} LinesAfter(s: seq<uchar>, t: seq<uchar>)
    requires NoNewline(s)
    ensures Lines(s + [NEWLINE] + t) == [s] + Lines(t)
    ensures Lines(s) == [s]
  {
    if s == [] {
      assert s + [NEWLINE] + t == [NEWLINE] + t;
    } else {
      LinesAfter(s[1..], t);
      assert (s + [NEWLINE] + t)[1..] == s[1..] + [NEWLINE] + t;
      assert [s[0]] + s[1..] == s;
    }
  }

  function Join(l: seq<seq<uchar>>): seq<uchar> { if l == [] then [] else l[0] + Join(l[1..]) }

  /** `l` are lines of exactly `d` characters, the last one of one to `d` characters, that hold `s` in order. */
  ghost predicate LinesOf(l: seq<seq<uchar>>, s: seq<uchar>, d: nat) {
    && |l| > 0
    && (forall i :: 0 <= i < |l| - 1 ==> |l[i]| == d)
    && 1 <= |l[|l| - 1]| <= d
    && Join(l) == s
  }

  lemma OneMoreLine(line: seq<uchar>, l: seq<seq<uchar>>, s: seq<uchar>, d: nat)
    requires |line| == d && LinesOf(l, s, d)
    ensures LinesOf([line] + l, line + s, d)
  {
    assert ([line] + l)[1..] == l;
  }

  /** Every line but the last has exactly `d` characters and the last has one to `d` of them, so the text does not
      end in a newline. */
  lemma {:induction false} LineShape(s: seq<uchar>, d: nat)
    requires d > 0 && NoNewline(s) && s != []
    ensures LinesOf(Lines(Wrap(s, d)), s, d)
  {
    WrapUnfold(s, d);
    if |s| <= d {
      LinesAfter(s, []);
      assert Join([s]) == s by { assert s + [] == s; }
    } else {
      LineShape(s[d..], d);
      hide Lines, Wrap, LinesOf;
      LinesAfter(s[..d], Wrap(s[d..], d));
      OneMoreLine(s[..d], Lines(Wrap(s[d..], d)), s[d..], d);
    }
  }

  // ---------------------------------------------------------------- the two forms

  /** What a text of lines of at most `d` characters promises: the lines joined are the standard encoding, every line
      but the last has `d` characters and the last has one to `d`; the empty input gives the empty text; and decoding
      with `remove_linebreaks` returns the input. A newline is the character 10. */
  ghost predicate Lined(t: seq<uchar>, bytes: seq<uchar>, d: nat) {
    && (bytes == [] ==> t == [])
    && (bytes != [] ==> LinesOf(Lines(t), Encode(bytes, false), d))
    && Decode(WithoutNewlines(t)) == Ok(bytes)
  }

  lemma WrapIsLined(bytes: seq<uchar>, d: nat)
    requires d > 0
    ensures Lined(Wrap(Encode(bytes, false), d), bytes, d)
  {
    WrappedRoundTrip(bytes, d);
    EncodeSpells(bytes, false);
    if bytes != [] {
      EncodedHasNoNewline(bytes, false);
      LineShape(Encode(bytes, false), d);
    }
  }

  /** Lines end at the character 10 and nowhere else. */
  lemma LinesAtNewline(c: uchar, t: seq<uchar>)
    ensures c == 10 ==> Lines([c] + t) == [[]] + Lines(t)
    ensures c != 10 ==> Lines([c] + t) == [[c] + Lines(t)[0]] + Lines(t)[1..]
  {
    assert ([c] + t)[1..] == t;
  }

  /** `remove_linebreaks` removes the characters 10 and nothing else, and keeps the order of the others. */
  lemma RemovesNewlines(s: seq<uchar>, c: uchar, t: seq<uchar>)
    ensures WithoutNewlines(s + [c] + t) == WithoutNewlines(s) + (if c == 10 then [] else [c]) + WithoutNewlines(t)
    ensures WithoutNewlines([]) == []
  {
    WithoutNewlinesConcatenate(s + [c], t);
    WithoutNewlinesConcatenate(s, [c]);
    assert WithoutNewlines([c]) == if c == 10 then [] else [c];
  }

  method EncodePem(bytes: seq<uchar>) returns (t: seq<uchar>)
    requires |bytes| < 0x1_0000_0000
    ensures t == Wrap(Encode(bytes, false), 64) && Lined(t, bytes, 64)
  {
    WrapIsLined(bytes, 64);
    t := EncodeWithLineBreaks(bytes, PEM_LINE);
  }

  method EncodeMime(bytes: seq<uchar>) returns (t: seq<uchar>)
    requires |bytes| < 0x1_0000_0000
    ensures t == Wrap(Encode(bytes, false), 76) && Lined(t, bytes, 76)
  {
    WrapIsLined(bytes, 76);
    t := EncodeWithLineBreaks(bytes, MIME_LINE);
  }
}
