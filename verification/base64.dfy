/** The base64 alphabet and padding rules of section 4 of RFC 4648, which
    `FileReader.readAsDataURL` produces and `fetch` of a `data:` URL consumes.
    The extension never touches this encoding itself; it is modelled so that
    "the image bytes survive the trip through a data URL" is a proved fact
    rather than an assumption. */
module Base64 {
  import opened Base

  predicate IsAlphabetChar(c: char) {
    ('A' <= c <= 'Z') || ('a' <= c <= 'z') || ('0' <= c <= '9') || c == '+' || c == '/'
  }

  /** A character that can appear in encoder output. */
  predicate IsEncodedChar(c: char) {
    IsAlphabetChar(c) || c == '='
  }

  function CharOf(v: int): (c: char)
    requires 0 <= v < 64
    ensures IsAlphabetChar(c)
  {
    if v < 26 then ('A' as int + v) as char
    else if v < 52 then ('a' as int + (v - 26)) as char
    else if v < 62 then ('0' as int + (v - 52)) as char
    else if v == 62 then '+'
    else '/'
  }

  /** The sextet a character stands for; the inverse of `CharOf`. */
  function ValueOf(c: char): (v: int)
    requires IsAlphabetChar(c)
    ensures 0 <= v < 64
    ensures CharOf(v) == c
  {
    if 'A' <= c <= 'Z' then c as int - 'A' as int
    else if 'a' <= c <= 'z' then c as int - 'a' as int + 26
    else if '0' <= c <= '9' then c as int - '0' as int + 52
    else if c == '+' then 62
    else 63
  }

  lemma ValueOfCharOf(v: int)
    requires 0 <= v < 64
    ensures ValueOf(CharOf(v)) == v
  {
  }

  /** Three bytes become four characters. */
  function EncodeTriple(a: Byte, b: Byte, c: Byte): string {
    [CharOf(a / 4), CharOf((a % 4) * 16 + b / 16), CharOf((b % 16) * 4 + c / 64), CharOf(c % 64)]
  }

  function Encode(bs: seq<Byte>): (s: string)
    ensures |bs| == 0 <==> |s| == 0
    decreases |bs|
  {
    if |bs| == 0 then ""
    else if |bs| == 1 then [CharOf(bs[0] / 4), CharOf((bs[0] % 4) * 16), '=', '=']
    else if |bs| == 2 then [CharOf(bs[0] / 4), CharOf((bs[0] % 4) * 16 + bs[1] / 16), CharOf((bs[1] % 16) * 4), '=']
    else EncodeTriple(bs[0], bs[1], bs[2]) + Encode(bs[3..])
  }

  /** Four characters without padding become three bytes. */
  function DecodeQuad(c0: char, c1: char, c2: char, c3: char): Option<seq<Byte>> {
    if IsAlphabetChar(c0) && IsAlphabetChar(c1) && IsAlphabetChar(c2) && IsAlphabetChar(c3) then
      var v0, v1, v2, v3 := ValueOf(c0), ValueOf(c1), ValueOf(c2), ValueOf(c3);
      Some([v0 * 4 + v1 / 16, (v1 % 16) * 16 + v2 / 4, (v2 % 4) * 64 + v3])
    else None
  }

  /** The last quadruple may carry one or two padding characters. */
  function DecodeLast(c0: char, c1: char, c2: char, c3: char): Option<seq<Byte>> {
    if IsAlphabetChar(c0) && IsAlphabetChar(c1) && c2 == '=' && c3 == '=' then
      Some([ValueOf(c0) * 4 + ValueOf(c1) / 16])
    else if IsAlphabetChar(c0) && IsAlphabetChar(c1) && IsAlphabetChar(c2) && c3 == '=' then
      var v1 := ValueOf(c1);
      Some([ValueOf(c0) * 4 + v1 / 16, (v1 % 16) * 16 + ValueOf(c2) / 4])
    else DecodeQuad(c0, c1, c2, c3)
  }

  /** Decoding fails (`None`) on a length that is not a multiple of four, on a
      character outside the alphabet, and on padding before the last quadruple. */
  function Decode(s: string): (r: Option<seq<Byte>>)
    ensures r.Some? ==> |s| % 4 == 0
    decreases |s|
  {
    if |s| == 0 then Some([])
    else if |s| < 4 then None
    else if |s| == 4 then DecodeLast(s[0], s[1], s[2], s[3])
    else match DecodeQuad(s[0], s[1], s[2], s[3])
      case None => None
      case Some(head) =>
        match Decode(s[4..])
        case None => None
        case Some(tail) => Some(head + tail)
  }

  lemma FirstByte(a: Byte, x: int)
    requires 0 <= x < 16
    ensures (a / 4) * 4 + ((a % 4) * 16 + x) / 16 == a
  {
  }

  lemma SecondByte(b: Byte, y: int)
    requires 0 <= y < 4
    ensures (((b / 16) % 16) * 16 + ((b % 16) * 4 + y) / 4) == b
  {
  }

  lemma ThirdByte(c: Byte, z: int)
    requires 0 <= z < 16
    ensures ((z * 4 + c / 64) % 4) * 64 + c % 64 == c
  {
  }

  lemma TripleRoundTrip(a: Byte, b: Byte, c: Byte)
    ensures var e := EncodeTriple(a, b, c); DecodeQuad(e[0], e[1], e[2], e[3]) == Some([a, b, c])
    ensures var e := EncodeTriple(a, b, c); DecodeLast(e[0], e[1], e[2], e[3]) == Some([a, b, c])
  {
    var v0, v1, v2, v3 := a / 4, (a % 4) * 16 + b / 16, (b % 16) * 4 + c / 64, c % 64;
    ValueOfCharOf(v0);
    ValueOfCharOf(v1);
    ValueOfCharOf(v2);
    ValueOfCharOf(v3);
    FirstByte(a, b / 16);
    assert v1 % 16 == b / 16;
    SecondByte(b, c / 64);
    ThirdByte(c, b % 16);
  }

  lemma SingleRoundTrip(a: Byte)
    ensures DecodeLast(CharOf(a / 4), CharOf((a % 4) * 16), '=', '=') == Some([a])
  {
    ValueOfCharOf(a / 4);
    ValueOfCharOf((a % 4) * 16);
    FirstByte(a, 0);
  }

  lemma PairRoundTrip(a: Byte, b: Byte)
    ensures DecodeLast(CharOf(a / 4), CharOf((a % 4) * 16 + b / 16), CharOf((b % 16) * 4), '=') == Some([a, b])
  {
    var v1 := (a % 4) * 16 + b / 16;
    ValueOfCharOf(a / 4);
    ValueOfCharOf(v1);
    ValueOfCharOf((b % 16) * 4);
    FirstByte(a, b / 16);
    assert v1 % 16 == b / 16;
    SecondByte(b, 0);
  }

  lemma DecodeCons(head: string, rest: string, h: seq<Byte>, t: seq<Byte>)
    requires |head| == 4 && |rest| > 0
    requires DecodeQuad(head[0], head[1], head[2], head[3]) == Some(h)
    requires Decode(rest) == Some(t)
    ensures Decode(head + rest) == Some(h + t)
  {
    var s := head + rest;
    assert s[4..] == rest;
    assert s[0] == head[0] && s[1] == head[1] && s[2] == head[2] && s[3] == head[3];
  }

  lemma EncodeOne(bs: seq<Byte>)
    requires |bs| == 1
    ensures Decode(Encode(bs)) == Some(bs)
  {
    var e := [CharOf(bs[0] / 4), CharOf((bs[0] % 4) * 16), '=', '='];
    assert Encode(bs) == e;
    SingleRoundTrip(bs[0]);
    assert Decode(e) == DecodeLast(e[0], e[1], e[2], e[3]);
    assert bs == [bs[0]];
  }

  lemma EncodeTwo(bs: seq<Byte>)
    requires |bs| == 2
    ensures Decode(Encode(bs)) == Some(bs)
  {
    var e := [CharOf(bs[0] / 4), CharOf((bs[0] % 4) * 16 + bs[1] / 16), CharOf((bs[1] % 16) * 4), '='];
    assert Encode(bs) == e;
    PairRoundTrip(bs[0], bs[1]);
    assert Decode(e) == DecodeLast(e[0], e[1], e[2], e[3]);
    assert bs == [bs[0], bs[1]];
  }

  lemma DecodeOfTriple(a: Byte, b: Byte, c: Byte)
    ensures Decode(EncodeTriple(a, b, c)) == Some([a, b, c])
  {
    var e := EncodeTriple(a, b, c);
    TripleRoundTrip(a, b, c);
    assert Decode(e) == DecodeLast(e[0], e[1], e[2], e[3]);
  }

  lemma EncodeThree(bs: seq<Byte>)
    requires |bs| == 3
    ensures Encode(bs) == EncodeTriple(bs[0], bs[1], bs[2])
  {
    var t := EncodeTriple(bs[0], bs[1], bs[2]);
    assert Encode(bs[3..]) == "";
    assert Encode(bs) == t + Encode(bs[3..]);
    assert t + "" == t;
  }

  lemma EncodeLong(bs: seq<Byte>)
    requires |bs| > 3
    ensures Encode(bs) == EncodeTriple(bs[0], bs[1], bs[2]) + Encode(bs[3..])
    ensures |Encode(bs[3..])| > 0
  {
  }

  /** The round trip for inputs of at most three bytes. */
  lemma {:induction false} DecodeEncodeShort(bs: seq<Byte>)
    requires |bs| <= 3
    ensures Decode(Encode(bs)) == Some(bs)
  {
    if |bs| == 1 {
      EncodeOne(bs);
    } else if |bs| == 2 {
      EncodeTwo(bs);
    } else if |bs| == 3 {
      EncodeThree(bs);
      DecodeOfTriple(bs[0], bs[1], bs[2]);
      assert bs == [bs[0], bs[1], bs[2]];
    }
  }

  /** A leading encoded triple decodes to its three bytes ahead of the
      rest's decoding. */
  lemma DecodeTripleCons(a: Byte, b: Byte, c: Byte, rest: string, t: seq<Byte>)
    requires |rest| > 0 && Decode(rest) == Some(t)
    ensures Decode(EncodeTriple(a, b, c) + rest) == Some([a, b, c] + t)
  {
    TripleRoundTrip(a, b, c);
    DecodeCons(EncodeTriple(a, b, c), rest, [a, b, c], t);
  }

  /** One inductive step: a leading triple extends the round trip of the
      rest. */
  lemma {:induction false} DecodeEncodeStep(bs: seq<Byte>)
    requires |bs| > 3
    requires Decode(Encode(bs[3..])) == Some(bs[3..])
    ensures Decode(Encode(bs)) == Some(bs)
  {
    var tail := Encode(bs[3..]);
    EncodeLong(bs);
    assert Encode(bs) == EncodeTriple(bs[0], bs[1], bs[2]) + tail;
    DecodeTripleCons(bs[0], bs[1], bs[2], tail, bs[3..]);
    SplitFirstThree(bs);
  }

  lemma {:induction false} SplitFirstThree(bs: seq<Byte>)
    requires |bs| > 3
    ensures [bs[0], bs[1], bs[2]] + bs[3..] == bs
  {
  }

  /** Decoding inverts encoding for every byte sequence. */
  lemma {:induction false} DecodeEncode(bs: seq<Byte>)
    ensures Decode(Encode(bs)) == Some(bs)
    decreases |bs|
  {
    if |bs| <= 3 {
      DecodeEncodeShort(bs);
    } else {
      DecodeEncode(bs[3..]);
      DecodeEncodeStep(bs);
    }
  }

  /** Encoder output uses only the alphabet and the padding character. */
  lemma {:induction false} EncodeChars(bs: seq<Byte>)
    ensures forall i :: 0 <= i < |Encode(bs)| ==> IsEncodedChar(Encode(bs)[i])
    decreases |bs|
  {
    if |bs| >= 3 {
      EncodeChars(bs[3..]);
      var t := EncodeTriple(bs[0], bs[1], bs[2]);
      assert Encode(bs) == t + Encode(bs[3..]);
      forall i | 0 <= i < |Encode(bs)|
        ensures IsEncodedChar(Encode(bs)[i])
      {
        if i >= 4 {
          assert Encode(bs)[i] == Encode(bs[3..])[i - 4];
        }
      }
    }
  }

  /** Encoder output never contains a comma, so it survives being cut out of
      a data URL at its first comma. */
  lemma EncodeHasNoComma(bs: seq<Byte>)
    ensures forall i :: 0 <= i < |Encode(bs)| ==> Encode(bs)[i] != ','
  {
    EncodeChars(bs);
  }
}
