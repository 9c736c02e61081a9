/** UTF-8 as section 3 of RFC 3629 defines it: the encoding that Python's
    `str.encode('utf-8')` applies with strict error handling, and a strict
    decoder that is its exact inverse. */
module Utf8 {
  import opened Wrappers

  /** One element of a Python `str`: any code point, the surrogates
      U+D800..U+DFFF included, although UTF-8 may not encode those. */
  type CodePoint = c: int | 0 <= c < 0x11_0000

  predicate IsSurrogate(c: CodePoint) {
    0xD800 <= c <= 0xDFFF
  }

  predicate IsContinuation(b: Byte) {
    0x80 <= b < 0xC0
  }

  /** Number of octets the table of RFC 3629 section 3 assigns to a code point. */
  function Width(c: CodePoint): nat {
    if c < 0x80 then 1 else if c < 0x800 then 2 else if c < 0x1_0000 then 3 else 4
  }

  /** The raised exception: Python reports the index of the first code point
      it could not encode. */
  datatype EncodeError = UnicodeEncodeError(position: nat)

  /** The octets of one code point, high-order bits first. */
  function EncodeScalar(c: CodePoint): (bs: seq<Byte>)
    requires !IsSurrogate(c)
    ensures |bs| == Width(c)
    ensures bs[0] < 0x80 <==> c < 0x80
    ensures forall i :: 1 <= i < |bs| ==> IsContinuation(bs[i])
  {
    if c < 0x80 then [c]
    else if c < 0x800 then [0xC0 + c / 0x40, 0x80 + c % 0x40]
    else if c < 0x1_0000 then [0xE0 + c / 0x1000, 0x80 + c / 0x40 % 0x40, 0x80 + c % 0x40]
    else [0xF0 + c / 0x4_0000, 0x80 + c / 0x1000 % 0x40, 0x80 + c / 0x40 % 0x40, 0x80 + c % 0x40]
  }

  /** `str.encode('utf-8')`: fails exactly when some code point is a surrogate,
      and then names the first one. */
  function Encode(s: seq<CodePoint>): (r: Result<seq<Byte>, EncodeError>)
    ensures r.Success? <==> forall i :: 0 <= i < |s| ==> !IsSurrogate(s[i])
    ensures r.Failure? ==>
      && r.error.position < |s|
      && IsSurrogate(s[r.error.position])
      && forall i :: 0 <= i < r.error.position ==> !IsSurrogate(s[i])
    decreases |s|
  {
    if s == [] then Success([])
    else if IsSurrogate(s[0]) then Failure(UnicodeEncodeError(0))
    else
      match Encode(s[1..])
      case Success(rest) => Success(EncodeScalar(s[0]) + rest)
      case Failure(e) => Failure(UnicodeEncodeError(e.position + 1))
  }

  /** Reads one well-formed UTF-8 sequence at the front of `bs`: the code
      point and the number of octets it took. Overlong forms, surrogates,
      values above U+10FFFF, stray continuation octets and truncated
      sequences are refused, as RFC 3629 section 3 requires. */
  function DecodeFirst(bs: seq<Byte>): (r: Option<(CodePoint, nat)>)
    requires |bs| > 0
    ensures r.Some? ==> 1 <= r.value.1 <= |bs| && r.value.1 <= 4 && !IsSurrogate(r.value.0)
  {
    var b0: int := bs[0];
    if b0 < 0x80 then Some((b0, 1))
    else if b0 < 0xC2 then None
    else if b0 < 0xE0 then
      if |bs| < 2 || !IsContinuation(bs[1]) then None
      else Some((Join2(b0, bs[1]), 2))
    else if b0 < 0xF0 then
      if |bs| < 3 || !IsContinuation(bs[1]) || !IsContinuation(bs[2]) then None
      else
        var c := Join3(b0, bs[1], bs[2]);
        if c < 0x800 || (0xD800 <= c <= 0xDFFF) then None else Some((c, 3))
    else if b0 < 0xF5 then
      if |bs| < 4 || !IsContinuation(bs[1]) || !IsContinuation(bs[2]) || !IsContinuation(bs[3]) then None
      else
        var c := Join4(b0, bs[1], bs[2], bs[3]);
        if c < 0x1_0000 || c >= 0x11_0000 then None else Some((c, 4))
    else None
  }

  /** The value bits of a lead octet followed by its continuation octets. */
  function Join2(b0: int, b1: int): int { (b0 - 0xC0) * 0x40 + (b1 - 0x80) }

  function Join3(b0: int, b1: int, b2: int): int {
    (b0 - 0xE0) * 0x1000 + (b1 - 0x80) * 0x40 + (b2 - 0x80)
  }

  function Join4(b0: int, b1: int, b2: int, b3: int): int {
    (b0 - 0xF0) * 0x4_0000 + (b1 - 0x80) * 0x1000 + (b2 - 0x80) * 0x40 + (b3 - 0x80)
  }

  /** Strict decoding of a whole octet string. */
  function Decode(bs: seq<Byte>): (r: Option<seq<CodePoint>>)
    decreases |bs|
  {
    if bs == [] then Some([])
    else
      match DecodeFirst(bs)
      case None => None
      case Some((c, n)) =>
        match Decode(bs[n..])
        case None => None
        case Some(rest) => Some([c] + rest)
  }

  /** A code point below U+0080 is its own single octet. */
  lemma EncodeAscii(s: seq<CodePoint>)
    requires forall i :: 0 <= i < |s| ==> s[i] < 0x80
    ensures Encode(s) == Success(s)
  {
    if s != [] {
      EncodeAscii(s[1..]);
      assert [s[0]] + s[1..] == s;
    }
  }

  /** Splitting a value into 6-bit groups and joining them again gives it back. */
  lemma Split2(c: int)
    requires 0x80 <= c < 0x800
    ensures Join2(0xC0 + c / 0x40, 0x80 + c % 0x40) == c
  {
  }

  lemma Split3(c: int)
    requires 0x800 <= c < 0x1_0000
    ensures Join3(0xE0 + c / 0x1000, 0x80 + c / 0x40 % 0x40, 0x80 + c % 0x40) == c
  {
    var q := c / 0x40;
    assert c == q * 0x40 + c % 0x40;
    assert q / 0x40 == c / 0x1000;
    assert q == q / 0x40 * 0x40 + q % 0x40;
  }

  lemma Split4(c: int)
    requires 0x1_0000 <= c < 0x11_0000
    ensures Join4(0xF0 + c / 0x4_0000, 0x80 + c / 0x1000 % 0x40, 0x80 + c / 0x40 % 0x40, 0x80 + c % 0x40) == c
  {
    var q := c / 0x40;
    var p := q / 0x40;
    assert c == q * 0x40 + c % 0x40;
    assert q == p * 0x40 + q % 0x40;
    assert p == c / 0x1000;
    assert p / 0x40 == c / 0x4_0000;
    assert p == p / 0x40 * 0x40 + p % 0x40;
  }

  lemma DecodeFirstOfEncodeScalar(c: CodePoint, rest: seq<Byte>)
    requires !IsSurrogate(c)
    ensures DecodeFirst(EncodeScalar(c) + rest) == Some((c, Width(c)))
  {
    var bs := EncodeScalar(c) + rest;
    if c < 0x80 {
    } else if c < 0x800 {
      Split2(c);
      assert bs[0] == 0xC0 + c / 0x40 && bs[1] == 0x80 + c % 0x40;
    } else if c < 0x1_0000 {
      Split3(c);
      assert bs[0] == 0xE0 + c / 0x1000;
    } else {
      Split4(c);
      assert bs[0] == 0xF0 + c / 0x4_0000;
    }
  }

  /** Round trip: strict decoding undoes encoding. */
  lemma {:induction false} DecodeEncode(s: seq<CodePoint>)
    requires Encode(s).Success?
    ensures Decode(Encode(s).value) == Some(s)
  {
    if s != [] {
      var head := EncodeScalar(s[0]);
      var tail := Encode(s[1..]).value;
      var bs := head + tail;
      assert Encode(s).value == bs;
      DecodeFirstOfEncodeScalar(s[0], tail);
      assert bs[|head|..] == tail;
      DecodeEncode(s[1..]);
      assert [s[0]] + s[1..] == s;
    }
  }

  /** Joining 6-bit groups and splitting the result gives the groups back. */
  lemma Join2Split(b0: int, b1: int)
    requires 0xC2 <= b0 < 0xE0 && 0x80 <= b1 < 0xC0
    ensures 0xC0 + Join2(b0, b1) / 0x40 == b0 && 0x80 + Join2(b0, b1) % 0x40 == b1
  {
  }

  lemma Join3Split(b0: int, b1: int, b2: int)
    requires 0xE0 <= b0 < 0xF0 && 0x80 <= b1 < 0xC0 && 0x80 <= b2 < 0xC0
    ensures var c := Join3(b0, b1, b2);
      0xE0 + c / 0x1000 == b0 && 0x80 + c / 0x40 % 0x40 == b1 && 0x80 + c % 0x40 == b2
  {
    var c := Join3(b0, b1, b2);
    var q := (b0 - 0xE0) * 0x40 + (b1 - 0x80);
    assert c == q * 0x40 + (b2 - 0x80);
    assert c / 0x40 == q;
  }

  lemma Join4Split(b0: int, b1: int, b2: int, b3: int)
    requires 0xF0 <= b0 < 0xF5 && 0x80 <= b1 < 0xC0 && 0x80 <= b2 < 0xC0 && 0x80 <= b3 < 0xC0
    ensures var c := Join4(b0, b1, b2, b3);
      && 0xF0 + c / 0x4_0000 == b0 && 0x80 + c / 0x1000 % 0x40 == b1
      && 0x80 + c / 0x40 % 0x40 == b2 && 0x80 + c % 0x40 == b3
  {
    var c := Join4(b0, b1, b2, b3);
    var p := (b0 - 0xF0) * 0x40 + (b1 - 0x80);
    var q := p * 0x40 + (b2 - 0x80);
    assert c == q * 0x40 + (b3 - 0x80);
    assert c / 0x40 == q;
    assert q / 0x40 == p;
    assert c / 0x1000 == p;
    assert c / 0x4_0000 == p / 0x40;
  }

  lemma EncodeScalarOfDecodeFirst(bs: seq<Byte>)
    requires |bs| > 0 && DecodeFirst(bs).Some?
    ensures EncodeScalar(DecodeFirst(bs).value.0) == bs[..DecodeFirst(bs).value.1]
  {
    var b0 := bs[0];
    if b0 < 0x80 {
    } else if b0 < 0xE0 {
      Join2Split(b0, bs[1]);
    } else if b0 < 0xF0 {
      Join3Split(b0, bs[1], bs[2]);
    } else {
      Join4Split(b0, bs[1], bs[2], bs[3]);
    }
  }

  /** The decoder accepts nothing but encoder output: decoding then
      encoding gives the octets back. */
  lemma {:induction false} EncodeDecode(bs: seq<Byte>)
    requires Decode(bs).Some?
    ensures Encode(Decode(bs).value) == Success(bs)
  {
    if bs != [] {
      var (c, n) := DecodeFirst(bs).value;
      var rest := Decode(bs[n..]).value;
      var s := Decode(bs).value;
      assert s == [c] + rest;
      EncodeScalarOfDecodeFirst(bs);
      EncodeDecode(bs[n..]);
      assert s[0] == c && s[1..] == rest;
      assert Encode(s) == Success(EncodeScalar(c) + bs[n..]);
      assert bs[..n] + bs[n..] == bs;
    }
  }
}
