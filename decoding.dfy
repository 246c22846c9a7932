/** Text decoding of a metadata block: strict UTF-8 (as Python's
    `bytes.decode('utf-8')`) with a Latin-1 fallback, as in
    `RadioScrobbler.__decode_metadata`. */
module Decoding {
  import opened Wrappers

  type Byte = b: int | 0 <= b < 256

  predicate IsContinuation(b: Byte) { 0x80 <= b <= 0xBF }

  /** Decodes the first scalar value of `bs` and says how many bytes it
      took, following the table of well-formed UTF-8 byte sequences of the
      Unicode standard (section 3.9, table 3-7): overlong forms, surrogates,
      values above U+10FFFF and truncated sequences are rejected. */
  function DecodeFirst(bs: seq<Byte>): (r: Option<(char, nat)>)
    requires |bs| > 0
    ensures r.Some? ==> 1 <= r.value.1 <= 4 && r.value.1 <= |bs|
    ensures r.Some? && r.value.1 == 1 <==> bs[0] < 0x80
  {
    var b0: int := bs[0];
    var b1: int := if |bs| >= 2 then bs[1] else 0;
    var b2: int := if |bs| >= 3 then bs[2] else 0;
    var b3: int := if |bs| >= 4 then bs[3] else 0;
    if b0 < 0x80 then
      Some((b0 as char, 1))
    else if 0xC2 <= b0 <= 0xDF then
      if |bs| >= 2 && IsContinuation(bs[1]) then
        Some((((b0 - 0xC0) * 64 + (b1 - 0x80)) as char, 2))
      else None
    else if 0xE0 <= b0 <= 0xEF then
      var lo := if b0 == 0xE0 then 0xA0 else 0x80;
      var hi := if b0 == 0xED then 0x9F else 0xBF;
      if |bs| >= 3 && lo <= bs[1] <= hi && IsContinuation(bs[2]) then
        Some((((b0 - 0xE0) * 4096 + (b1 - 0x80) * 64 + (b2 - 0x80)) as char, 3))
      else None
    else if 0xF0 <= b0 <= 0xF4 then
      var lo := if b0 == 0xF0 then 0x90 else 0x80;
      var hi := if b0 == 0xF4 then 0x8F else 0xBF;
      if |bs| >= 4 && lo <= bs[1] <= hi && IsContinuation(bs[2]) && IsContinuation(bs[3]) then
        Some((((b0 - 0xF0) * 262144 + (b1 - 0x80) * 4096 + (b2 - 0x80) * 64 + (b3 - 0x80)) as char, 4))
      else None
    else
      None
  }

  /** Strict UTF-8 decoding: `None` is the `UnicodeDecodeError`. */
  function Utf8Decode(bs: seq<Byte>): (r: Option<string>)
    decreases |bs|
  {
    if bs == [] then Some([])
    else match DecodeFirst(bs)
      case None => None
      case Some((c, n)) =>
        match Utf8Decode(bs[n..])
        case None => None
        case Some(rest) => Some([c] + rest)
  }

  /** The UTF-8 encoding of one scalar value, one to four bytes. */
  function EncodeChar(c: char): (bs: seq<Byte>)
    ensures 1 <= |bs| <= 4
  {
    var n := c as int;
    if n < 0x80 then [n]
    else if n < 0x800 then [0xC0 + n / 64, 0x80 + n % 64]
    else if n < 0x10000 then [0xE0 + n / 4096, 0x80 + n / 64 % 64, 0x80 + n % 64]
    else [0xF0 + n / 262144, 0x80 + n / 4096 % 64, 0x80 + n / 64 % 64, 0x80 + n % 64]
  }

  function Utf8Encode(s: string): seq<Byte>
  {
    if s == [] then [] else EncodeChar(s[0]) + Utf8Encode(s[1..])
  }

  /** Latin-1 decoding: byte value b becomes the character U+00b. It cannot
      fail, so the `errors='ignore'` of the source never drops anything. */
  function Latin1Decode(bs: seq<Byte>): (r: string)
    ensures |r| == |bs|
    ensures forall i :: 0 <= i < |bs| ==> r[i] as int == bs[i]
  {
    seq(|bs|, i requires 0 <= i < |bs| => bs[i] as char)
  }

  /** Latin-1 encoding of a text whose characters are all below U+0100. */
  function Latin1Encode(s: string): (bs: seq<Byte>)
    requires forall i :: 0 <= i < |s| ==> s[i] as int < 256
  {
    seq(|s|, i requires 0 <= i < |s| && s[i] as int < 256 => s[i] as int)
  }

  /** `__decode_metadata`: UTF-8 when the block is valid UTF-8, otherwise
      Latin-1, one character per byte. */
  function DecodeMetadata(bs: seq<Byte>): (r: string)
    ensures Utf8Decode(bs).Some? ==> r == Utf8Decode(bs).value
    ensures Utf8Decode(bs).None? ==> |r| == |bs| && forall i :: 0 <= i < |bs| ==> r[i] as int == bs[i]
  {
    match Utf8Decode(bs)
    case Some(text) => text
    case None => Latin1Decode(bs)
  }

  // ---- properties -------------------------------------------------------

  lemma EncodeCharDecodes(c: char, rest: seq<Byte>)
    ensures DecodeFirst(EncodeChar(c) + rest) == Some((c, |EncodeChar(c)|))
  {
    var n := c as int;
    if n < 0x80 {
    } else if n < 0x800 {
      EncodeTwo(c, rest);
    } else if n < 0x10000 {
      EncodeThree(c, rest);
    } else {
      EncodeFour(c, rest);
    }
  }

  lemma EncodeTwo(c: char, rest: seq<Byte>)
    requires 0x80 <= c as int < 0x800
    ensures DecodeFirst(EncodeChar(c) + rest) == Some((c, 2))
  {
  }

  lemma EncodeThree(c: char, rest: seq<Byte>)
    requires 0x800 <= c as int < 0x10000
    ensures DecodeFirst(EncodeChar(c) + rest) == Some((c, 3))
  {
  }

  lemma EncodeFour(c: char, rest: seq<Byte>)
    requires 0x10000 <= c as int
    ensures DecodeFirst(EncodeChar(c) + rest) == Some((c, 4))
  {
    var n := c as int;
    SixBitDigits(n);
    var bs := EncodeChar(c) + rest;
    assert bs[0] == 0xF0 + n / 262144 && bs[1] == 0x80 + n / 4096 % 64;
    assert bs[2] == 0x80 + n / 64 % 64 && bs[3] == 0x80 + n % 64;
  }

  /** The base-64 digits of a supplementary-plane scalar value, as the
      four-byte form spreads them over its bytes. */
  lemma SixBitDigits(n: int)
    requires 0x10000 <= n < 0x110000
    ensures n == n / 262144 * 262144 + n / 4096 % 64 * 4096 + n / 64 % 64 * 64 + n % 64
    ensures n / 262144 <= 4 && (n / 262144 == 4 ==> n / 4096 % 64 < 16)
    ensures n / 262144 == 0 ==> n / 4096 % 64 >= 16
  {
    var q1, q2, q3 := n / 64, n / 4096, n / 262144;
    assert n == 64 * q1 + n % 64;
    assert q2 == q1 / 64 && q1 == 64 * q2 + q1 % 64;
    assert q3 == q2 / 64 && q2 == 64 * q3 + q2 % 64;
  }

  /** Decoding inverts encoding: every text survives a UTF-8 round trip. */
  lemma {:induction false} Utf8RoundTrip(s: string)
    ensures Utf8Decode(Utf8Encode(s)) == Some(s)
  {
    if s != [] {
      var e := EncodeChar(s[0]);
      var bs := Utf8Encode(s);
      assert bs == e + Utf8Encode(s[1..]);
      EncodeCharDecodes(s[0], Utf8Encode(s[1..]));
      assert bs[|e|..] == Utf8Encode(s[1..]);
      Utf8RoundTrip(s[1..]);
      assert [s[0]] + s[1..] == s;
    }
  }

  /** Every step the decoder accepts reads exactly the UTF-8 encoding of the
      character it yields. So no overlong form, no surrogate and nothing
      above U+10FFFF is ever accepted: each of those differs from the
      encoding of the value it would denote. */
  lemma DecodeFirstIsEncoding(bs: seq<Byte>)
    requires |bs| > 0
    ensures DecodeFirst(bs).Some? ==> bs[..DecodeFirst(bs).value.1] == EncodeChar(DecodeFirst(bs).value.0)
  {
    var b0: int := bs[0];
    if b0 < 0x80 {
      assert bs[..1] == [bs[0]];
    } else if 0xC2 <= b0 <= 0xDF {
      if DecodeFirst(bs).Some? {
        TwoByteStep(bs);
      }
    } else if 0xE0 <= b0 <= 0xEF {
      if DecodeFirst(bs).Some? {
        ThreeByteStep(bs);
      }
    } else if 0xF0 <= b0 <= 0xF4 {
      if DecodeFirst(bs).Some? {
        FourByteStep(bs);
      }
    }
  }

  lemma TwoByteStep(bs: seq<Byte>)
    requires |bs| >= 2 && 0xC2 <= bs[0] <= 0xDF && IsContinuation(bs[1])
    ensures DecodeFirst(bs).Some? && bs[..2] == EncodeChar(DecodeFirst(bs).value.0)
  {
    var b0: int, b1: int := bs[0], bs[1];
    var v := (b0 - 0xC0) * 64 + (b1 - 0x80);
    Digits(v, b0 - 0xC0, b1 - 0x80);
    assert DecodeFirst(bs) == Some((v as char, 2));
    assert bs[..2] == [bs[0], bs[1]];
  }

  lemma ThreeByteStep(bs: seq<Byte>)
    requires |bs| >= 3 && 0xE0 <= bs[0] <= 0xEF && IsContinuation(bs[2])
    requires (if bs[0] == 0xE0 then 0xA0 else 0x80) <= bs[1] <= (if bs[0] == 0xED then 0x9F else 0xBF)
    ensures DecodeFirst(bs).Some? && bs[..3] == EncodeChar(DecodeFirst(bs).value.0)
  {
    var b0: int, b1: int, b2: int := bs[0], bs[1], bs[2];
    var hi := (b0 - 0xE0) * 64 + (b1 - 0x80);
    var v := hi * 64 + (b2 - 0x80);
    Digits(v, hi, b2 - 0x80);
    Digits(hi, b0 - 0xE0, b1 - 0x80);
    assert v / 4096 == b0 - 0xE0;
    assert DecodeFirst(bs) == Some((v as char, 3));
    assert bs[..3] == [bs[0], bs[1], bs[2]];
  }

  lemma FourByteStep(bs: seq<Byte>)
    requires |bs| >= 4 && 0xF0 <= bs[0] <= 0xF4 && IsContinuation(bs[2]) && IsContinuation(bs[3])
    requires (if bs[0] == 0xF0 then 0x90 else 0x80) <= bs[1] <= (if bs[0] == 0xF4 then 0x8F else 0xBF)
    ensures DecodeFirst(bs).Some? && bs[..4] == EncodeChar(DecodeFirst(bs).value.0)
  {
    var b0: int, b1: int, b2: int, b3: int := bs[0], bs[1], bs[2], bs[3];
    var top := (b0 - 0xF0) * 64 + (b1 - 0x80);
    var hi := top * 64 + (b2 - 0x80);
    var v := hi * 64 + (b3 - 0x80);
    Digits(v, hi, b3 - 0x80);
    Digits(hi, top, b2 - 0x80);
    Digits(top, b0 - 0xF0, b1 - 0x80);
    assert v / 4096 == top && v / 262144 == b0 - 0xF0;
    assert DecodeFirst(bs) == Some((v as char, 4));
    assert bs[..4] == [bs[0], bs[1], bs[2], bs[3]];
  }

  /** Splitting off the last base-64 digit. */
  lemma Digits(v: int, q: int, d: int)
    requires 0 <= d < 64 && v == q * 64 + d
    ensures v / 64 == q && v % 64 == d
  {
  }

  /** Strict decoding succeeds only on the encoding of its result. */
  lemma {:induction false} Utf8DecodeEncodes(bs: seq<Byte>)
    requires Utf8Decode(bs).Some?
    ensures Utf8Encode(Utf8Decode(bs).value) == bs
    decreases |bs|
  {
    if bs != [] {
      var c, n := DecodeStep(bs);
      Utf8DecodeEncodes(bs[n..]);
      EncodeCons(c, Utf8Decode(bs[n..]).value);
      assert bs[..n] + bs[n..] == bs;
    }
  }

  /** A successful decoding starts with the encoding of its first character. */
  lemma DecodeStep(bs: seq<Byte>) returns (c: char, n: nat)
    requires bs != [] && Utf8Decode(bs).Some?
    ensures 0 < n <= |bs| && bs[..n] == EncodeChar(c)
    ensures Utf8Decode(bs[n..]).Some? && Utf8Decode(bs).value == [c] + Utf8Decode(bs[n..]).value
  {
    c, n := DecodeFirst(bs).value.0, DecodeFirst(bs).value.1;
    DecodeFirstIsEncoding(bs);
  }

  lemma EncodeCons(c: char, tail: string)
    ensures Utf8Encode([c] + tail) == EncodeChar(c) + Utf8Encode(tail)
  {
    assert ([c] + tail)[1..] == tail;
  }

  /** Hence strict UTF-8 gives the text `s` exactly when the bytes are the
      encoding of `s`; any other byte sequence is rejected. */
  lemma Utf8DecodeExactly(bs: seq<Byte>, s: string)
    ensures Utf8Decode(bs) == Some(s) <==> bs == Utf8Encode(s)
  {
    if Utf8Decode(bs) == Some(s) {
      Utf8DecodeEncodes(bs);
    }
    if bs == Utf8Encode(s) {
      Utf8RoundTrip(s);
    }
  }

  /** UTF-8 never yields more characters than there are bytes. */
  lemma {:induction false} Utf8DecodeShorter(bs: seq<Byte>)
    requires Utf8Decode(bs).Some?
    ensures |Utf8Decode(bs).value| <= |bs|
  {
    if bs != [] {
      var n := DecodeFirst(bs).value.1;
      Utf8DecodeShorter(bs[n..]);
    }
  }

  /** On 7-bit bytes the two decodings agree, character for byte. */
  lemma {:induction false} AsciiDecodesAlike(bs: seq<Byte>)
    requires forall i :: 0 <= i < |bs| ==> bs[i] < 0x80
    ensures Utf8Decode(bs) == Some(Latin1Decode(bs))
  {
    if bs != [] {
      AsciiDecodesAlike(bs[1..]);
      assert Latin1Decode(bs) == [bs[0] as char] + Latin1Decode(bs[1..]);
    }
  }

  /** The metadata text has at most one character per byte, exactly one in
      the Latin-1 fallback. */
  lemma MetadataLength(bs: seq<Byte>)
    ensures |DecodeMetadata(bs)| <= |bs|
    ensures Utf8Decode(bs).None? ==> |DecodeMetadata(bs)| == |bs|
  {
    if Utf8Decode(bs).Some? {
      Utf8DecodeShorter(bs);
    }
  }

  /** Latin-1 decoding loses nothing: encoding its result gives the bytes back. */
  lemma Latin1RoundTrip(bs: seq<Byte>)
    ensures forall i :: 0 <= i < |Latin1Decode(bs)| ==> Latin1Decode(bs)[i] as int < 256
    ensures Latin1Encode(Latin1Decode(bs)) == bs
  {
  }

  /** A byte that cannot start a UTF-8 sequence: a continuation byte, an
      overlong lead or a lead beyond U+10FFFF. */
  predicate NeverLeads(b: Byte)
  {
    0x80 <= b <= 0xC1 || b >= 0xF5
  }

  /** Such a byte after 7-bit text sends the whole block to the Latin-1
      fallback. */
  lemma StrayByteFallsBack(bs: seq<Byte>, k: nat)
    requires k < |bs| && NeverLeads(bs[k])
    requires forall i :: 0 <= i < k ==> bs[i] < 0x80
    ensures DecodeMetadata(bs) == Latin1Decode(bs)
  {
    StrayByteBreaksUtf8(bs, k);
  }

  lemma {:induction false} StrayByteBreaksUtf8(bs: seq<Byte>, k: nat)
    requires k < |bs| && NeverLeads(bs[k])
    requires forall i :: 0 <= i < k ==> bs[i] < 0x80
    ensures Utf8Decode(bs).None?
  {
    if k > 0 {
      StrayByteBreaksUtf8(bs[1..], k - 1);
    }
  }

  /** A 7-bit byte in front of a block is decoded as its own character,
      whichever decoding the block gets. */
  lemma AsciiBytePrefix(b: Byte, rest: seq<Byte>)
    requires b < 0x80
    ensures DecodeMetadata([b] + rest) == [b as char] + DecodeMetadata(rest)
  {
  }
}
