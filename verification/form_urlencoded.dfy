/** The application/x-www-form-urlencoded serializer that `URLSearchParams.toString`
    runs (section 5.2 of the WHATWG URL Standard), and the matching parser of section 5.1
    that the receiving server applies to the query it is sent. */
module FormUrlencoded {
  import opened Options
  import opened Text
  import Utf8
  import UrlView
  import opened SearchParams

  /** The bytes the form-urlencoded percent-encode set leaves as they are:
      ASCII digits, letters, `*`, `-`, `.` and `_`. */
  predicate IsUnreservedByte(b: Utf8.Byte) {
    || 0x30 <= b <= 0x39 || 0x41 <= b <= 0x5A || 0x61 <= b <= 0x7A
    || b == 0x2A || b == 0x2D || b == 0x2E || b == 0x5F
  }

  /** The characters of those bytes. */
  predicate IsUnreservedChar(c: char) {
    || '0' <= c <= '9' || 'A' <= c <= 'Z' || 'a' <= c <= 'z'
    || c == '*' || c == '-' || c == '.' || c == '_'
  }

  /** Every character the serializer can emit inside one name or value. */
  predicate IsEncodedChar(c: char) {
    IsUnreservedChar(c) || c == '+' || c == '%'
  }

  /** Every character the serializer can emit at all. */
  predicate IsQueryChar(c: char) {
    IsEncodedChar(c) || c == '=' || c == '&'
  }

  predicate AllEncodedChars(t: string) {
    forall k :: 0 <= k < |t| ==> IsEncodedChar(t[k])
  }

  /** Upper-case hexadecimal digit, as percent-encoding writes it. */
  function HexDigit(d: nat): (c: char)
    requires d < 16
    ensures IsUnreservedChar(c)
  {
    if d < 10 then ('0' as int + d) as char else ('A' as int + d - 10) as char
  }

  predicate IsHexDigit(c: char) {
    '0' <= c <= '9' || 'A' <= c <= 'F' || 'a' <= c <= 'f'
  }

  function HexValue(c: char): (d: nat)
    requires IsHexDigit(c)
    ensures d < 16
  {
    if c <= '9' then c as int - '0' as int
    else if c <= 'F' then c as int - 'A' as int + 10
    else c as int - 'a' as int + 10
  }

  /** One byte: space becomes `+`, an unreserved byte stays, anything else is `%XX`. */
  function EncodeByte(b: Utf8.Byte): (t: string)
    ensures 1 <= |t| <= 3 && AllEncodedChars(t)
  {
    if b == 0x20 then "+"
    else if IsUnreservedByte(b) then [b as char]
    else ['%', HexDigit(b / 16), HexDigit(b % 16)]
  }

  function EncodeBytes(bs: seq<Utf8.Byte>): (t: string)
    ensures AllEncodedChars(t)
  {
    if |bs| == 0 then [] else EncodeByte(bs[0]) + EncodeBytes(bs[1..])
  }

  /** A name or a value: UTF-8 encode, then percent-encode each byte. */
  function EncodeComponent(s: string): (t: string)
    ensures AllEncodedChars(t)
    ensures '=' !in t && '&' !in t
  {
    EncodeBytes(Utf8.Encode(s))
  }

  function PairText(p: Pair): string {
    EncodeComponent(p.0) + "=" + EncodeComponent(p.1)
  }

  /** The serialization of a whole list: the pairs' texts joined by `&`. */
  function Serialize(q: seq<Pair>): (t: string)
    ensures forall k :: 0 <= k < |t| ==> IsQueryChar(t[k])
    ensures |q| == 0 <==> |t| == 0
  {
    if |q| == 0 then ""
    else if |q| == 1 then PairText(q[0])
    else PairText(q[0]) + "&" + Serialize(q[1..])
  }

  /** Percent-decoding with `+` read as a space, as the parser does; a character outside
      ASCII cannot appear in a query the URL parser has already percent-encoded. */
  function PercentDecode(s: string): Option<seq<Utf8.Byte>>
    decreases |s|
  {
    if |s| == 0 then Some([])
    else if s[0] == '+' then Prepend(0x20, PercentDecode(s[1..]))
    else if s[0] == '%' && |s| >= 3 && IsHexDigit(s[1]) && IsHexDigit(s[2]) then
      Prepend(HexValue(s[1]) * 16 + HexValue(s[2]), PercentDecode(s[3..]))
    else if (s[0] as int) < 0x80 then Prepend(s[0] as int, PercentDecode(s[1..]))
    else None
  }

  function Prepend(b: Utf8.Byte, o: Option<seq<Utf8.Byte>>): Option<seq<Utf8.Byte>> {
    match o
    case None => None
    case Some(t) => Some([b] + t)
  }

  function DecodeComponent(s: string): Option<string> {
    match PercentDecode(s)
    case None => None
    case Some(bs) => Utf8.Decode(bs)
  }

  /** One `&`-separated piece: the name up to the first `=`, the value after it. */
  function ParsePiece(piece: string): Option<Pair> {
    var (n, v) := if '=' in piece then
        var i := IndexOf(piece, '=');
        (piece[..i], piece[i + 1..])
      else (piece, "");
    match (DecodeComponent(n), DecodeComponent(v))
    case (Some(name), Some(value)) => Some((name, value))
    case _ => None
  }

  /** The pieces in order, empty pieces skipped. */
  function ParsePieces(pieces: seq<string>): Option<seq<Pair>> {
    if |pieces| == 0 then Some([])
    else
      var rest := ParsePieces(pieces[1..]);
      if pieces[0] == [] then rest
      else match (ParsePiece(pieces[0]), rest)
        case (Some(p), Some(ps)) => Some([p] + ps)
        case _ => None
  }

  function Parse(s: string): Option<seq<Pair>> {
    ParsePieces(SplitOn(s, '&'))
  }

  lemma DecodeEncodeByte(b: Utf8.Byte, rest: string)
    ensures PercentDecode(EncodeByte(b) + rest) == Prepend(b, PercentDecode(rest))
  {
    var t := EncodeByte(b) + rest;
    if b == 0x20 {
      assert t[1..] == rest;
    } else if IsUnreservedByte(b) {
      assert t[1..] == rest;
    } else {
      assert t[3..] == rest;
      assert HexValue(HexDigit(b / 16)) * 16 + HexValue(HexDigit(b % 16)) == b;
    }
  }

  lemma {:induction false} DecodeEncodeBytes(bs: seq<Utf8.Byte>)
    ensures PercentDecode(EncodeBytes(bs)) == Some(bs)
  {
    if |bs| > 0 {
      DecodeEncodeBytes(bs[1..]);
      DecodeEncodeByte(bs[0], EncodeBytes(bs[1..]));
      assert [bs[0]] + bs[1..] == bs;
    }
  }

  /** Round trip for one name or value. */
  lemma DecodeEncodeComponent(s: string)
    ensures DecodeComponent(EncodeComponent(s)) == Some(s)
  {
    DecodeEncodeBytes(Utf8.Encode(s));
    Utf8.DecodeEncode(s);
  }

  lemma ParsePairText(p: Pair)
    ensures ParsePiece(PairText(p)) == Some(p)
  {
    var n, v := EncodeComponent(p.0), EncodeComponent(p.1);
    var piece := PairText(p);
    IndexOfAfterPrefix(n, '=', v);
    assert piece[..|n|] == n;
    assert piece[|n| + 1..] == v;
    DecodeEncodeComponent(p.0);
    DecodeEncodeComponent(p.1);
  }

  function PairTexts(q: seq<Pair>): (ts: seq<string>)
    ensures |ts| == |q|
  {
    if |q| == 0 then [] else [PairText(q[0])] + PairTexts(q[1..])
  }

  lemma {:induction false} SplitSerialize(q: seq<Pair>)
    requires |q| >= 1
    ensures SplitOn(Serialize(q), '&') == PairTexts(q)
  {
    if |q| == 1 {
      SplitOnNone(PairText(q[0]), '&');
    } else {
      SplitSerialize(q[1..]);
      SplitOnJoin(PairText(q[0]), '&', Serialize(q[1..]));
    }
  }

  lemma {:induction false} ParsePairTexts(q: seq<Pair>)
    ensures ParsePieces(PairTexts(q)) == Some(q)
  {
    if |q| > 0 {
      ParsePairTexts(q[1..]);
      ParsePairText(q[0]);
      assert PairTexts(q)[1..] == PairTexts(q[1..]);
      assert PairText(q[0])[|EncodeComponent(q[0].0)|] == '=';
      assert [q[0]] + q[1..] == q;
    }
  }

  /** Round trip: parsing a serialized list gives back exactly that list. So no caller
      name or value can smuggle in an extra pair or split an existing one. */
  lemma ParseSerialize(q: seq<Pair>)
    ensures Parse(Serialize(q)) == Some(q)
  {
    if |q| == 0 {
      assert SplitOn("", '&') == [""];
    } else {
      SplitSerialize(q);
      ParsePairTexts(q);
    }
  }

  /** Distinct lists never serialize to the same query string. */
  lemma SerializeInjective(q: seq<Pair>, q': seq<Pair>)
    requires Serialize(q) == Serialize(q')
    ensures q == q'
  {
    ParseSerialize(q);
    ParseSerialize(q');
  }

  /** An unreserved character is one ASCII byte, which the serializer writes as itself. */
  lemma EncodeUnreservedChar(c: char)
    requires IsUnreservedChar(c)
    ensures Utf8.EncodeChar(c) == [c as int]
    ensures EncodeByte(c as int) == [c]
  {
    assert IsUnreservedByte(c as int);
  }

  /** A component written only in unreserved ASCII characters is serialized as itself. */
  lemma {:induction false} EncodeUnreserved(s: string)
    requires forall k :: 0 <= k < |s| ==> IsUnreservedChar(s[k])
    ensures EncodeComponent(s) == s
  {
    if |s| > 0 {
      EncodeUnreserved(s[1..]);
      EncodeUnreservedChar(s[0]);
      var b := s[0] as int;
      var rest := Utf8.Encode(s[1..]);
      assert Utf8.Encode(s) == [b] + rest;
      assert ([b] + rest)[1..] == rest;
      assert EncodeBytes([b] + rest) == [s[0]] + EncodeBytes(rest);
      assert s == [s[0]] + s[1..];
    }
  }

  /** A serialized query holds only characters the URL parser copies into a query
      unchanged; in particular none it trims, no `#` and no `?`. */
  lemma SerializedVisible(q: seq<Pair>)
    ensures forall k :: 0 <= k < |Serialize(q)| ==>
      UrlView.IsQueryTextChar(Serialize(q)[k]) && Serialize(q)[k] != '?'
  {
    var t := Serialize(q);
    forall k | 0 <= k < |t|
      ensures UrlView.IsQueryTextChar(t[k]) && t[k] != '?'
    {
      QueryCharVisible(t[k]);
    }
  }

  lemma QueryCharVisible(c: char)
    requires IsQueryChar(c)
    ensures UrlView.IsQueryTextChar(c) && c != '?'
  {
  }
}
