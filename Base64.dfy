/** The base 64 encoding of section 4 of RFC 4648, which Python's
    `base64.b64encode` implements: each group of three octets becomes four
    characters of a 64-letter alphabet, and a final group of one or two
    octets is padded with `=` to four characters. The decoder is the strict
    one the same section describes (no characters outside the alphabet, no
    missing padding, zero pad bits); it is the encoder's partner here, not
    something the scripts call. */
module Base64 {
  import opened Wrappers

  /** A 6-bit group, the index into the alphabet. */
  type Sextet = v: int | 0 <= v < 64

  const PAD: char := '='

  predicate IsAlphabetChar(c: char) {
    ('A' <= c <= 'Z') || ('a' <= c <= 'z') || ('0' <= c <= '9') || c == '+' || c == '/'
  }

  /** The character that encodes a 6-bit value, as Table 1 of RFC 4648
      lists them: 0..25 are `A`..`Z`, 26..51 are `a`..`z`, 52..61 are
      `0`..`9`, 62 is `+` and 63 is `/`. */
  function Char(v: Sextet): (c: char)
    ensures IsAlphabetChar(c)
  {
    if v < 26 then ('A' as int + v) as char
    else if v < 52 then ('a' as int + (v - 26)) as char
    else if v < 62 then ('0' as int + (v - 52)) as char
    else if v == 62 then '+'
    else '/'
  }

  /** The 6-bit value a character encodes, if it belongs to the alphabet. */
  function Value(c: char): (r: Option<Sextet>)
    ensures r.Some? <==> IsAlphabetChar(c)
    ensures r.Some? ==> Char(r.value) == c
  {
    if 'A' <= c <= 'Z' then
      assert ('A' as int + (c as int - 'A' as int)) as char == c;
      Some(c as int - 'A' as int)
    else if 'a' <= c <= 'z' then Some(c as int - 'a' as int + 26)
    else if '0' <= c <= '9' then Some(c as int - '0' as int + 52)
    else if c == '+' then Some(62)
    else if c == '/' then Some(63)
    else None
  }

  lemma ValueOfChar(v: Sextet)
    ensures Value(Char(v)) == Some(v)
  {
  }

  /** Four characters for three octets: the 24-bit group read as four 6-bit groups. */
  function EncodeGroup(b0: Byte, b1: Byte, b2: Byte): (q: string)
  {
    [Char(b0 / 4), Char(b0 % 4 * 16 + b1 / 16), Char(b1 % 16 * 4 + b2 / 64), Char(b2 % 64)]
  }

  /** `base64.b64encode`. */
  function Encode(bs: seq<Byte>): (s: string)
    ensures |bs| > 0 ==> |s| >= 4
    decreases |bs|
  {
    if |bs| == 0 then []
    else if |bs| == 1 then [Char(bs[0] / 4), Char(bs[0] % 4 * 16), PAD, PAD]
    else if |bs| == 2 then [Char(bs[0] / 4), Char(bs[0] % 4 * 16 + bs[1] / 16), Char(bs[1] % 16 * 4), PAD]
    else EncodeGroup(bs[0], bs[1], bs[2]) + Encode(bs[3..])
  }

  /** The 24-bit group of four 6-bit values, read as three octets. The
      decoding functions compute on plain integers and `Decode` states that
      they are octets. */
  function GroupOctets(v0: Sextet, v1: Sextet, v2: Sextet, v3: Sextet): (bs: seq<int>)
    ensures |bs| == 3 && IsOctets(bs)
  {
    var x0: int, x1: int, x2: int, x3: int := v0, v1, v2, v3;
    [x0 * 4 + x1 / 16, x1 % 16 * 16 + x2 / 4, x2 % 4 * 64 + x3]
  }

  predicate IsOctets(v: seq<int>) {
    forall i :: 0 <= i < |v| ==> 0 <= v[i] < 0x100
  }

  /** The length of RFC 4648 section 4: four characters for every group of
      three octets, the last group counting even when it is short, so the
      length is always a multiple of four. */
  lemma {:induction false} EncodeLength(bs: seq<Byte>)
    ensures |Encode(bs)| == 4 * ((|bs| + 2) / 3)
    decreases |bs|
  {
    if |bs| <= 2 {
      EncodeShortLength(bs);
    } else {
      EncodeLength(bs[3..]);
      EncodeConsLength(bs);
      QuantaStep(|bs|, |Encode(bs)|, |Encode(bs[3..])|);
    }
  }

  /** Arithmetic of the length step, kept apart from `Encode`. */
  lemma QuantaStep(n: int, m: int, r: int)
    requires n >= 3 && r == 4 * ((n - 3 + 2) / 3) && m == r + 4
    ensures m == 4 * ((n + 2) / 3)
  {
  }

  lemma EncodeLengthMultiple(bs: seq<Byte>)
    ensures |Encode(bs)| % 4 == 0
  {
    EncodeLength(bs);
    MultipleOfFour(|Encode(bs)|, (|bs| + 2) / 3);
  }

  lemma MultipleOfFour(m: int, k: int)
    requires m == 4 * k
    ensures m % 4 == 0
  {
  }

  lemma EncodeConsLength(bs: seq<Byte>)
    requires |bs| >= 3
    ensures |Encode(bs)| == 4 + |Encode(bs[3..])|
  {
    EncodeCons(bs);
  }

  lemma EncodeShortLength(bs: seq<Byte>)
    requires |bs| <= 2
    ensures |Encode(bs)| == if |bs| == 0 then 0 else 4
  {
  }

  /** A string of three or more octets starts with the encoding of its first group. */
  lemma EncodeCons(bs: seq<Byte>)
    requires |bs| >= 3
    ensures Encode(bs) == EncodeGroup(bs[0], bs[1], bs[2]) + Encode(bs[3..])
  {
  }

  /** Four alphabet characters, no padding, back to three octets. */
  function DecodeGroup(q: string): (r: Option<seq<int>>)
    requires |q| == 4
  {
    match (Value(q[0]), Value(q[1]), Value(q[2]), Value(q[3]))
    case (Some(v0), Some(v1), Some(v2), Some(v3)) => Some(GroupOctets(v0, v1, v2, v3))
    case _ => None
  }

  /** The last four characters, which may end in one or two `=`; the pad
      bits must be zero. */
  function DecodeFinal(q: string): (r: Option<seq<int>>)
    requires |q| == 4
  {
    if q[2] == PAD && q[3] == PAD then
      match (Value(q[0]), Value(q[1]))
      case (Some(v0), Some(v1)) =>
        if v1 % 16 == 0 then Some(GroupOctets(v0, v1, 0, 0)[..1]) else None
      case _ => None
    else if q[3] == PAD then
      match (Value(q[0]), Value(q[1]), Value(q[2]))
      case (Some(v0), Some(v1), Some(v2)) =>
        if v2 % 4 == 0 then Some(GroupOctets(v0, v1, v2, 0)[..2]) else None
      case _ => None
    else DecodeGroup(q)
  }

  function DecodeQuanta(s: string): (r: Option<seq<int>>)
    ensures r.Some? ==> IsOctets(r.value)
    decreases |s|
  {
    if |s| == 0 then Some([])
    else if |s| < 4 then None
    else if |s| == 4 then DecodeFinal(s)
    else
      match DecodeGroup(s[..4])
      case None => None
      case Some(head) =>
        match DecodeQuanta(s[4..])
        case None => None
        case Some(tail) => Some(head + tail)
  }

  /** Strict decoding: `None` for a length that is not a multiple of four, a
      character outside the alphabet, misplaced padding or non-zero pad bits. */
  function Decode(s: string): (r: Option<seq<Byte>>)
  {
    match DecodeQuanta(s)
    case None => None
    case Some(v) => Some(v)
  }

  /** Three octets survive the trip through four characters. */
  lemma DecodeEncodeGroup(b0: Byte, b1: Byte, b2: Byte)
    ensures DecodeGroup(EncodeGroup(b0, b1, b2)) == Some([b0, b1, b2])
  {
    ValueOfChar(b0 / 4);
    ValueOfChar(b0 % 4 * 16 + b1 / 16);
    ValueOfChar(b1 % 16 * 4 + b2 / 64);
    ValueOfChar(b2 % 64);
    SplitJoin(b0, b1, b2);
  }

  /** Octets split into 6-bit groups and joined again are unchanged. */
  lemma SplitJoin(b0: Byte, b1: Byte, b2: Byte)
    ensures GroupOctets(b0 / 4, b0 % 4 * 16 + b1 / 16, b1 % 16 * 4 + b2 / 64, b2 % 64) == [b0, b1, b2]
  {
  }

  /** 6-bit groups joined into octets and split again are unchanged. */
  lemma JoinSplit(v0: Sextet, v1: Sextet, v2: Sextet, v3: Sextet)
    ensures var bs := GroupOctets(v0, v1, v2, v3);
      && bs[0] / 4 == v0
      && bs[0] % 4 * 16 + bs[1] / 16 == v1
      && bs[1] % 16 * 4 + bs[2] / 64 == v2
      && bs[2] % 64 == v3
  {
  }

  /** The padded final quantum of one octet decodes to it. */
  lemma DecodeEncodeOne(b0: Byte)
    ensures DecodeQuanta(Encode([b0])) == Some([b0])
  {
    var q := [Char(b0 / 4), Char(b0 % 4 * 16), PAD, PAD];
    assert Encode([b0]) == q;
    ValueOfChar(b0 / 4);
    ValueOfChar(b0 % 4 * 16);
    SplitJoin(b0, 0, 0);
    assert Value(q[0]) == Some(b0 / 4) && Value(q[1]) == Some(b0 % 4 * 16);
    assert GroupOctets(b0 / 4, b0 % 4 * 16, 0, 0)[..1] == [b0];
    assert DecodeQuanta(q) == DecodeFinal(q);
  }

  /** The padded final quantum of two octets decodes to them. */
  lemma DecodeEncodeTwo(b0: Byte, b1: Byte)
    ensures DecodeQuanta(Encode([b0, b1])) == Some([b0, b1])
  {
    var q := [Char(b0 / 4), Char(b0 % 4 * 16 + b1 / 16), Char(b1 % 16 * 4), PAD];
    assert Encode([b0, b1]) == q;
    assert q[3] == PAD && q[2] != PAD;
    ValueOfChar(b0 / 4);
    ValueOfChar(b0 % 4 * 16 + b1 / 16);
    ValueOfChar(b1 % 16 * 4);
    SplitJoin(b0, b1, 0);
    assert Value(q[0]) == Some(b0 / 4) && Value(q[1]) == Some(b0 % 4 * 16 + b1 / 16);
    assert Value(q[2]) == Some(b1 % 16 * 4);
    assert GroupOctets(b0 / 4, b0 % 4 * 16 + b1 / 16, b1 % 16 * 4, 0)[..2] == [b0, b1];
    assert DecodeQuanta(q) == DecodeFinal(q);
  }

  /** Three octets alone form an unpadded final quantum. */
  lemma DecodeEncodeThree(b0: Byte, b1: Byte, b2: Byte)
    ensures DecodeQuanta(Encode([b0, b1, b2])) == Some([b0, b1, b2])
  {
    var q := EncodeGroup(b0, b1, b2);
    EncodeCons([b0, b1, b2]);
    assert [b0, b1, b2][3..] == [];
    assert Encode([b0, b1, b2]) == q;
    assert q[3] != PAD;
    DecodeEncodeGroup(b0, b1, b2);
    assert DecodeQuanta(q) == DecodeFinal(q);
  }

  /** Short octet strings written out element by element. */
  lemma Elements(bs: seq<Byte>)
    ensures |bs| == 1 ==> bs == [bs[0]]
    ensures |bs| == 2 ==> bs == [bs[0], bs[1]]
    ensures |bs| == 3 ==> bs == [bs[0], bs[1], bs[2]]
    ensures |bs| >= 3 ==> bs == [bs[0], bs[1], bs[2]] + bs[3..]
  {
  }

  /** One step of the round trip: the first three octets in front of the
      encoded rest. */
  lemma DecodeEncodeStep(bs: seq<Byte>, rest: string)
    requires |bs| >= 3 && |rest| > 0 && DecodeQuanta(rest) == Some(bs[3..])
    ensures DecodeQuanta(EncodeGroup(bs[0], bs[1], bs[2]) + rest) == Some(bs)
  {
    var q := EncodeGroup(bs[0], bs[1], bs[2]);
    DecodeEncodeGroup(bs[0], bs[1], bs[2]);
    var s := q + rest;
    assert s[..4] == q && s[4..] == rest;
    Elements(bs);
  }

  /** Round trip: decoding the encoder's output gives the octets back. */
  lemma DecodeEncode(bs: seq<Byte>)
    ensures Decode(Encode(bs)) == Some(bs)
  {
    DecodeQuantaEncode(bs);
  }

  lemma {:induction false} DecodeQuantaEncode(bs: seq<Byte>)
    ensures DecodeQuanta(Encode(bs)) == Some(bs)
    decreases |bs|
  {
    Elements(bs);
    if |bs| == 1 {
      DecodeEncodeOne(bs[0]);
    } else if |bs| == 2 {
      DecodeEncodeTwo(bs[0], bs[1]);
    } else if |bs| == 3 {
      DecodeEncodeThree(bs[0], bs[1], bs[2]);
    } else if |bs| > 3 {
      DecodeQuantaEncode(bs[3..]);
      EncodeCons(bs);
      DecodeEncodeStep(bs, Encode(bs[3..]));
    }
  }

  /** Three octets read back from a group of four characters re-encode to
      those characters. */
  lemma EncodeDecodeGroup(q: string)
    requires |q| == 4 && DecodeGroup(q).Some?
    ensures var bs := DecodeGroup(q).value; EncodeGroup(bs[0], bs[1], bs[2]) == q
  {
    var v0, v1, v2, v3 := Value(q[0]).value, Value(q[1]).value, Value(q[2]).value, Value(q[3]).value;
    assert DecodeGroup(q).value == GroupOctets(v0, v1, v2, v3);
    JoinSplit(v0, v1, v2, v3);
  }

  lemma EncodeDecodeFinal(q: string)
    requires |q| == 4 && DecodeFinal(q).Some?
    ensures Encode(DecodeFinal(q).value) == q
  {
    if q[2] == PAD && q[3] == PAD {
      EncodeDecodeFinalOne(q);
    } else if q[3] == PAD {
      EncodeDecodeFinalTwo(q);
    } else {
      EncodeDecodeGroup(q);
      var bs := DecodeGroup(q).value;
      EncodeCons(bs);
      assert bs[3..] == [];
    }
  }

  lemma EncodeDecodeFinalOne(q: string)
    requires |q| == 4 && q[2] == PAD && q[3] == PAD && DecodeFinal(q).Some?
    ensures Encode(DecodeFinal(q).value) == q
  {
    var v0, v1 := Value(q[0]).value, Value(q[1]).value;
    var bs := GroupOctets(v0, v1, 0, 0);
    JoinSplit(v0, v1, 0, 0);
    assert DecodeFinal(q).value == [bs[0]];
    var e := [Char(bs[0] / 4), Char(bs[0] % 4 * 16), PAD, PAD];
    assert Encode([bs[0]]) == e;
    Quad(q, e);
  }

  lemma EncodeDecodeFinalTwo(q: string)
    requires |q| == 4 && q[2] != PAD && q[3] == PAD && DecodeFinal(q).Some?
    ensures Encode(DecodeFinal(q).value) == q
  {
    var v0, v1, v2 := Value(q[0]).value, Value(q[1]).value, Value(q[2]).value;
    var bs := GroupOctets(v0, v1, v2, 0);
    JoinSplit(v0, v1, v2, 0);
    assert DecodeFinal(q).value == [bs[0], bs[1]];
    var e := [Char(bs[0] / 4), Char(bs[0] % 4 * 16 + bs[1] / 16), Char(bs[1] % 16 * 4), PAD];
    assert Encode([bs[0], bs[1]]) == e;
    Quad(q, e);
  }

  /** Two strings of four characters that agree at each position are equal. */
  lemma Quad(q: string, e: string)
    requires |q| == 4 && |e| == 4
    requires q[0] == e[0] && q[1] == e[1] && q[2] == e[2] && q[3] == e[3]
    ensures q == e
  {
    assert forall i :: 0 <= i < 4 ==> q[i] == e[i];
  }

  /** The decoder accepts only the encoder's output: whatever it decodes
      re-encodes to the same text, so the encoding is a bijection between
      octet strings and the strings `Decode` accepts. */
  lemma EncodeDecode(s: string)
    requires Decode(s).Some?
    ensures Encode(Decode(s).value) == s
  {
    EncodeDecodeQuanta(s);
  }

  lemma {:induction false} EncodeDecodeQuanta(s: string)
    requires DecodeQuanta(s).Some?
    ensures Encode(DecodeQuanta(s).value) == s
    decreases |s|
  {
    if |s| == 4 {
      EncodeDecodeFinal(s);
    } else if |s| > 4 {
      var head := DecodeGroup(s[..4]).value;
      var tail := DecodeQuanta(s[4..]).value;
      EncodeDecodeGroup(s[..4]);
      EncodeDecodeQuanta(s[4..]);
      var bs := head + tail;
      assert DecodeQuanta(s).value == bs;
      assert bs[0] == head[0] && bs[1] == head[1] && bs[2] == head[2];
      assert bs[3..] == tail;
      assert s == s[..4] + s[4..];
    }
  }

  /** The padding of RFC 4648 section 4: the encoding of n octets ends in
      0, 2 or 1 `=` as n mod 3 is 0, 1 or 2, every character before the
      padding is one of the 64 alphabet characters, and no `=` appears
      anywhere else. */
  lemma {:induction false} EncodeShape(bs: seq<Byte>)
    ensures var s := Encode(bs);
      var pad := if |bs| % 3 == 0 then 0 else if |bs| % 3 == 1 then 2 else 1;
      && pad <= |s|
      && (forall i :: 0 <= i < |s| - pad ==> IsAlphabetChar(s[i]))
      && (forall i :: |s| - pad <= i < |s| ==> s[i] == PAD)
    decreases |bs|
  {
    if |bs| >= 3 {
      var s := Encode(bs);
      var q := EncodeGroup(bs[0], bs[1], bs[2]);
      var rest := Encode(bs[3..]);
      EncodeShape(bs[3..]);
      assert s == q + rest;
      assert (|bs| - 3) % 3 == |bs| % 3;
      forall i | 0 <= i < |s| && i >= 4
        ensures s[i] == rest[i - 4]
      {
      }
    }
  }
}
