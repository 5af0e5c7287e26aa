/** UTF-8, as the form-urlencoded serializer applies it before percent-encoding
    (section 5.2 of the WHATWG URL Standard), and a strict decoder that undoes it. */
module Utf8 {
  import opened Options

  type Byte = b: int | 0 <= b < 256

  /** Is `v` a Unicode scalar value, i.e. a code point that is not a surrogate? */
  predicate IsScalar(v: int) {
    0 <= v < 0xD800 || 0xE000 <= v < 0x11_0000
  }

  predicate IsContinuation(b: Byte) {
    0x80 <= b < 0xC0
  }

  /** The one to four bytes that encode one scalar value. */
  function EncodeChar(c: char): (bs: seq<Byte>)
    ensures 1 <= |bs| <= 4
    ensures |bs| == 1 <==> (c as int) < 0x80
    ensures (c as int) < 0x80 ==> bs == [c as int]
    ensures forall k :: 1 <= k < |bs| ==> IsContinuation(bs[k])
  {
    var n := c as int;
    if n < 0x80 then [n]
    else if n < 0x800 then [0xC0 + n / 64, 0x80 + n % 64]
    else if n < 0x1_0000 then [0xE0 + n / 4096, 0x80 + (n / 64) % 64, 0x80 + n % 64]
    else [0xF0 + n / 0x4_0000, 0x80 + (n / 4096) % 64, 0x80 + (n / 64) % 64, 0x80 + n % 64]
  }

  /** UTF-8 encoding of a whole string. */
  function Encode(s: string): (bs: seq<Byte>)
    ensures |s| <= |bs| <= 4 * |s|
  {
    if |s| == 0 then [] else EncodeChar(s[0]) + Encode(s[1..])
  }

  /** The length of the sequence a lead byte announces, or 0 for a byte that cannot lead. */
  function LeadWidth(b: Byte): nat {
    if b < 0x80 then 1
    else if 0xC0 <= b < 0xE0 then 2
    else if 0xE0 <= b < 0xF0 then 3
    else if 0xF0 <= b < 0xF8 then 4
    else 0
  }

  /** The smallest scalar value that needs a sequence of width `w`; anything below is overlong. */
  function MinScalar(w: nat): int {
    if w == 1 then 0 else if w == 2 then 0x80 else if w == 3 then 0x800 else 0x1_0000
  }

  /** The code point a lead byte and its continuation bytes spell out. */
  function CodePoint(bs: seq<Byte>): int
    requires 1 <= |bs| <= 4
  {
    var b0, b1, b2, b3 := bs[0] as int, if |bs| > 1 then bs[1] as int else 0,
      if |bs| > 2 then bs[2] as int else 0, if |bs| > 3 then bs[3] as int else 0;
    if |bs| == 1 then b0
    else if |bs| == 2 then (b0 - 0xC0) * 64 + (b1 - 0x80)
    else if |bs| == 3 then (b0 - 0xE0) * 4096 + (b1 - 0x80) * 64 + (b2 - 0x80)
    else (b0 - 0xF0) * 0x4_0000 + (b1 - 0x80) * 4096 + (b2 - 0x80) * 64 + (b3 - 0x80)
  }

  /** Strict decoding: None on a bad lead byte, a truncated or malformed sequence,
      an overlong form, a surrogate or a value beyond U+10FFFF. */
  function Decode(bs: seq<Byte>): (r: Option<string>)
    ensures r.Some? ==> |r.value| <= |bs|
    decreases |bs|
  {
    if |bs| == 0 then Some([])
    else
      var w := LeadWidth(bs[0]);
      if w == 0 || |bs| < w || exists k :: 1 <= k < w && !IsContinuation(bs[k]) then None
      else
        var v := CodePoint(bs[..w]);
        if !IsScalar(v) || v < MinScalar(w) then None
        else match Decode(bs[w..])
          case None => None
          case Some(rest) => Some([v as char] + rest)
  }

  /** The lead byte of an encoding announces its width, the bytes spell out the
      character, and the width is the shortest one for it. */
  lemma EncodeCharFields(c: char)
    ensures var e := EncodeChar(c);
      && LeadWidth(e[0]) == |e| && CodePoint(e) == c as int && c as int >= MinScalar(|e|)
  {
    var n := c as int;
    if n < 0x80 {
    } else if n < 0x800 {
      TwoByteFields(n);
    } else if n < 0x1_0000 {
      ThreeByteFields(n);
    } else {
      FourByteFields(n);
    }
  }

  lemma TwoByteFields(n: int)
    requires 0x80 <= n < 0x800
    ensures var e: seq<Byte> := [0xC0 + n / 64, 0x80 + n % 64];
      LeadWidth(e[0]) == 2 && CodePoint(e) == n
  {
    assert (n / 64) * 64 + n % 64 == n;
  }

  lemma ThreeByteFields(n: int)
    requires 0x800 <= n < 0x1_0000
    ensures var e: seq<Byte> := [0xE0 + n / 4096, 0x80 + (n / 64) % 64, 0x80 + n % 64];
      LeadWidth(e[0]) == 3 && CodePoint(e) == n
  {
    assert (n / 4096) * 64 + (n / 64) % 64 == n / 64;
    assert (n / 64) * 64 + n % 64 == n;
  }

  lemma FourByteFields(n: int)
    requires 0x1_0000 <= n < 0x11_0000
    ensures var e: seq<Byte> :=
        [0xF0 + n / 0x4_0000, 0x80 + (n / 4096) % 64, 0x80 + (n / 64) % 64, 0x80 + n % 64];
      LeadWidth(e[0]) == 4 && CodePoint(e) == n
  {
    assert (n / 0x4_0000) * 64 + (n / 4096) % 64 == n / 4096;
    assert (n / 4096) * 64 + (n / 64) % 64 == n / 64;
    assert (n / 64) * 64 + n % 64 == n;
  }

  /** Decoding reads back exactly the character an encoding starts with. */
  lemma DecodeEncodeChar(c: char, rest: seq<Byte>)
    ensures Decode(EncodeChar(c) + rest) ==
            match Decode(rest)
            case None => None
            case Some(t) => Some([c] + t)
  {
    var e := EncodeChar(c);
    var bs := e + rest;
    EncodeCharFields(c);
    assert bs[..|e|] == e;
    assert bs[|e|..] == rest;
    assert bs[0] == e[0];
    assert forall k :: 1 <= k < |e| ==> bs[k] == e[k];
    assert (c as int) as char == c;
  }

  /** Round trip: the strict decoder undoes UTF-8 encoding for every string. */
  lemma {:induction false} DecodeEncode(s: string)
    ensures Decode(Encode(s)) == Some(s)
  {
    if |s| == 0 {
    } else {
      DecodeEncode(s[1..]);
      DecodeEncodeChar(s[0], Encode(s[1..]));
      assert [s[0]] + s[1..] == s;
    }
  }

  /** Encoding is injective: distinct strings never share an encoding. */
  lemma EncodeInjective(s: string, t: string)
    requires Encode(s) == Encode(t)
    ensures s == t
  {
    DecodeEncode(s);
    DecodeEncode(t);
  }
}
