/** `encodeURIComponent` (ECMA-262, section 19.2.6.5) as percent-encoding in the sense of section 2.1
    of RFC 3986: every character outside the unescaped set becomes the `%XX` triplets of its UTF-8
    bytes, hexadecimal digits in upper case. `Decode` is a reference `decodeURIComponent`; the two
    form a round trip. */
module UriCoding {
  import opened Wrappers

  /** The characters `encodeURIComponent` leaves alone: letters, digits and `-_.!~*'()`. */
  predicate Unreserved(c: char) {
    ('A' <= c <= 'Z') || ('a' <= c <= 'z') || ('0' <= c <= '9') ||
    c == '-' || c == '_' || c == '.' || c == '!' || c == '~' || c == '*' || c == '\'' || c == '(' || c == ')'
  }

  /** The upper-case hexadecimal digit for `k`. */
  function HexDigit(k: nat): (c: char)
    requires k < 16
    ensures Unreserved(c)
  {
    if k < 10 then ('0' as int + k) as char else ('A' as int + k - 10) as char
  }

  /** The value of one hexadecimal digit, in either case. */
  function HexValue(c: char): (r: Option<nat>)
    ensures r.Some? ==> r.value < 16
  {
    if '0' <= c <= '9' then Some(c as int - '0' as int)
    else if 'A' <= c <= 'F' then Some(c as int - 'A' as int + 10)
    else if 'a' <= c <= 'f' then Some(c as int - 'a' as int + 10)
    else None
  }

  /** One byte written as `%XX`. */
  function PercentByte(b: nat): (r: string)
    requires b < 256
    ensures forall x :: x in r ==> Unreserved(x) || x == '%'
  {
    ['%', HexDigit(b / 16), HexDigit(b % 16)]
  }

  /** The UTF-8 encoding of one Unicode scalar value. */
  function Utf8(c: char): (bs: seq<nat>)
    ensures 1 <= |bs| <= 4
    ensures forall i :: 0 <= i < |bs| ==> bs[i] < 256
  {
    var v := c as int;
    if v < 0x80 then [v]
    else if v < 0x800 then [0xC0 + v / 0x40, 0x80 + v % 0x40]
    else if v < 0x1_0000 then [0xE0 + v / 0x1000, 0x80 + (v / 0x40) % 0x40, 0x80 + v % 0x40]
    else [0xF0 + v / 0x4_0000, 0x80 + (v / 0x1000) % 0x40, 0x80 + (v / 0x40) % 0x40, 0x80 + v % 0x40]
  }

  function PercentBytes(bs: seq<nat>): (r: string)
    requires forall i :: 0 <= i < |bs| ==> bs[i] < 256
    ensures forall x :: x in r ==> Unreserved(x) || x == '%'
  {
    if bs == [] then "" else PercentByte(bs[0]) + PercentBytes(bs[1..])
  }

  /** The encoding of one character. */
  function EncodeChar(c: char): (r: string)
    ensures forall x :: x in r ==> Unreserved(x) || x == '%'
  {
    if Unreserved(c) then [c] else PercentBytes(Utf8(c))
  }

  /** `encodeURIComponent(s)`. Only unreserved characters and `%` appear in the result, so it holds
      no `$`, no `,`, no quote and no whitespace. */
  function Encode(s: string): (r: string)
    ensures forall x :: x in r ==> Unreserved(x) || x == '%'
  {
    if s == [] then "" else EncodeChar(s[0]) + Encode(s[1..])
  }

  /** The byte written as `%XX` at index `i` of `s`. */
  function ByteAt(s: string, i: nat): (r: Option<nat>)
    ensures r.Some? ==> r.value < 256
  {
    if i + 3 <= |s| && s[i] == '%' && HexValue(s[i + 1]).Some? && HexValue(s[i + 2]).Some? then
      Some(16 * HexValue(s[i + 1]).value + HexValue(s[i + 2]).value)
    else None
  }

  /** The six payload bits of a UTF-8 continuation byte written as `%XX` at index `i` of `s`. */
  function ContinuationAt(s: string, i: nat): (r: Option<nat>)
    ensures r.Some? ==> r.value < 0x40
  {
    match ByteAt(s, i)
    case Some(b) => if 0x80 <= b < 0xC0 then Some(b - 0x80) else None
    case None => None
  }

  /** A decoded code point, provided it is a Unicode scalar value no shorter than `least` allows
      (overlong forms are refused), paired with the number of characters it took. */
  function Scalar(v: int, least: int, width: nat): Option<(char, nat)> {
    if least <= v && (0 <= v < 0xD800 || 0xE000 <= v < 0x11_0000) then Some((v as char, width)) else None
  }

  /** The first character encoded at the start of `s` and how many characters of `s` encode it;
      None where `decodeURIComponent` throws a URIError. */
  function DecodeFirst(s: string): (r: Option<(char, nat)>)
    requires s != []
    ensures r.Some? ==> 1 <= r.value.1 <= |s|
  {
    if s[0] != '%' then Some((s[0], 1))
    else match ByteAt(s, 0)
      case None => None
      case Some(b0) =>
        if b0 < 0x80 then Some((b0 as char, 3))
        else if 0xC0 <= b0 < 0xE0 then
          match ContinuationAt(s, 3)
          case Some(c1) => if |s| >= 6 then Scalar((b0 - 0xC0) * 0x40 + c1, 0x80, 6) else None
          case None => None
        else if 0xE0 <= b0 < 0xF0 then
          match (ContinuationAt(s, 3), ContinuationAt(s, 6))
          case (Some(c1), Some(c2)) =>
            if |s| >= 9 then Scalar((b0 - 0xE0) * 0x1000 + c1 * 0x40 + c2, 0x800, 9) else None
          case _ => None
        else if 0xF0 <= b0 < 0xF8 then
          match (ContinuationAt(s, 3), ContinuationAt(s, 6), ContinuationAt(s, 9))
          case (Some(c1), Some(c2), Some(c3)) =>
            if |s| >= 12 then Scalar((b0 - 0xF0) * 0x4_0000 + c1 * 0x1000 + c2 * 0x40 + c3, 0x1_0000, 12) else None
          case _ => None
        else None
  }

  /** `decodeURIComponent(s)`, or None where it throws a URIError. */
  function Decode(s: string): Option<string>
    decreases |s|
  {
    if s == [] then Some("")
    else match DecodeFirst(s)
      case None => None
      case Some((c, n)) =>
        match Decode(s[n..])
        case None => None
        case Some(rest) => Some([c] + rest)
  }

  lemma Div64(a: int, q: int, r: int)
    requires 0 <= r < 0x40 && a == 0x40 * q + r
    ensures a / 0x40 == q && a % 0x40 == r
  {
  }

  /** The digits of a three-byte sequence put back together give the code point. */
  lemma ThreeByteDigits(v: nat)
    requires v < 0x1_0000
    ensures (v / 0x1000) * 0x1000 + ((v / 0x40) % 0x40) * 0x40 + v % 0x40 == v
  {
    var q := v / 0x40;
    Div64(q, q / 0x40, q % 0x40);
    Div64(v, q, v % 0x40);
    assert v / 0x1000 == q / 0x40;
  }

  /** The digits of a four-byte sequence put back together give the code point. */
  lemma FourByteDigits(v: nat)
    ensures (v / 0x4_0000) * 0x4_0000 + ((v / 0x1000) % 0x40) * 0x1000 + ((v / 0x40) % 0x40) * 0x40 + v % 0x40 == v
  {
    var q := v / 0x40;
    var q2 := q / 0x40;
    Div64(v, q, v % 0x40);
    Div64(q, q2, q % 0x40);
    Div64(q2, q2 / 0x40, q2 % 0x40);
    assert v / 0x1000 == q2;
    assert v / 0x4_0000 == q2 / 0x40;
  }

  lemma PercentByteAt(b: nat, rest: string)
    requires b < 256
    ensures ByteAt(PercentByte(b) + rest, 0) == Some(b)
  {
    var s := PercentByte(b) + rest;
    assert s[0] == '%' && s[1] == HexDigit(b / 16) && s[2] == HexDigit(b % 16);
  }

  lemma ByteAtShift(p: string, s: string, i: nat)
    ensures ByteAt(p + s, |p| + i) == ByteAt(s, i)
  {
    if i + 3 <= |s| {
      assert (p + s)[|p| + i] == s[i] && (p + s)[|p| + i + 1] == s[i + 1] && (p + s)[|p| + i + 2] == s[i + 2];
    }
  }

  /** Decoding the encoding of one character followed by anything yields that character and says
      how long its encoding was. */
  lemma DecodeFirstEncodeChar(c: char, rest: string)
    ensures DecodeFirst(EncodeChar(c) + rest) == Some((c, |EncodeChar(c)|))
  {
    var v := c as int;
    if Unreserved(c) {
      assert (EncodeChar(c) + rest)[0] == c;
    } else if v < 0x80 {
      DecodeOneByte(c, rest);
    } else if v < 0x800 {
      DecodeTwoBytes(c, rest);
    } else if v < 0x1_0000 {
      DecodeThreeBytes(c, rest);
    } else {
      DecodeFourBytes(c, rest);
    }
  }

  lemma DecodeOneByte(c: char, rest: string)
    requires !Unreserved(c) && c as int < 0x80
    ensures DecodeFirst(EncodeChar(c) + rest) == Some((c, |EncodeChar(c)|))
  {
    var v := c as int;
    assert Utf8(c) == [v];
    assert [v][1..] == [];
    assert PercentBytes([v]) == PercentByte(v) + PercentBytes([]);
    assert EncodeChar(c) == PercentByte(v);
    PercentByteAt(v, rest);
  }

  lemma {:induction false} PercentBytesLength(bs: seq<nat>)
    requires forall k :: 0 <= k < |bs| ==> bs[k] < 256
    ensures |PercentBytes(bs)| == 3 * |bs|
  {
    if bs != [] {
      PercentBytesLength(bs[1..]);
    }
  }

  /** The `i`-th byte written by `PercentBytes` reads back from offset `3 * i`. */
  lemma {:induction false} ReadBytes(bs: seq<nat>, rest: string, i: nat)
    requires forall k :: 0 <= k < |bs| ==> bs[k] < 256
    requires i < |bs|
    ensures ByteAt(PercentBytes(bs) + rest, 3 * i) == Some(bs[i])
  {
    var head := PercentByte(bs[0]);
    var t := PercentBytes(bs[1..]) + rest;
    assert PercentBytes(bs) + rest == head + t;
    if i == 0 {
      PercentByteAt(bs[0], t);
    } else {
      assert bs[1..][i - 1] == bs[i];
      ReadBytes(bs[1..], rest, i - 1);
      assert |head| == 3;
      ByteAtShift(head, t, 3 * (i - 1));
    }
  }

  /** Two bytes written one after the other read back from offsets 0 and 3. */
  lemma ReadTwo(b0: nat, b1: nat, rest: string)
    requires b0 < 256 && b1 < 256
    ensures var s := PercentBytes([b0, b1]) + rest;
      && |PercentBytes([b0, b1])| == 6
      && ByteAt(s, 0) == Some(b0) && ByteAt(s, 3) == Some(b1)
  {
    PercentBytesLength([b0, b1]);
    ReadBytes([b0, b1], rest, 0);
    ReadBytes([b0, b1], rest, 1);
  }


  lemma DecodeTwoBytes(c: char, rest: string)
    requires !Unreserved(c) && 0x80 <= c as int < 0x800
    ensures DecodeFirst(EncodeChar(c) + rest) == Some((c, |EncodeChar(c)|))
  {
    var v := c as int;
    var b0, b1 := 0xC0 + v / 0x40, 0x80 + v % 0x40;
    assert Utf8(c) == [b0, b1];
    ReadTwo(b0, b1, rest);
    var s := EncodeChar(c) + rest;
    assert ContinuationAt(s, 3) == Some(v % 0x40);
    assert DecodeFirst(s) == Scalar((v / 0x40) * 0x40 + v % 0x40, 0x80, 6);
  }

  /** Three bytes written one after the other read back from offsets 0, 3 and 6. */
  lemma ReadThree(b0: nat, b1: nat, b2: nat, rest: string)
    requires b0 < 256 && b1 < 256 && b2 < 256
    ensures var s := PercentBytes([b0, b1, b2]) + rest;
      && |PercentBytes([b0, b1, b2])| == 9
      && ByteAt(s, 0) == Some(b0) && ByteAt(s, 3) == Some(b1) && ByteAt(s, 6) == Some(b2)
  {
    PercentBytesLength([b0, b1, b2]);
    ReadBytes([b0, b1, b2], rest, 0);
    ReadBytes([b0, b1, b2], rest, 1);
    ReadBytes([b0, b1, b2], rest, 2);
  }


  /** Four bytes written one after the other read back from offsets 0, 3, 6 and 9. */
  lemma ReadFour(b0: nat, b1: nat, b2: nat, b3: nat, rest: string)
    requires b0 < 256 && b1 < 256 && b2 < 256 && b3 < 256
    ensures var s := PercentBytes([b0, b1, b2, b3]) + rest;
      && |PercentBytes([b0, b1, b2, b3])| == 12
      && ByteAt(s, 0) == Some(b0) && ByteAt(s, 3) == Some(b1) && ByteAt(s, 6) == Some(b2)
      && ByteAt(s, 9) == Some(b3)
  {
    PercentBytesLength([b0, b1, b2, b3]);
    ReadBytes([b0, b1, b2, b3], rest, 0);
    ReadBytes([b0, b1, b2, b3], rest, 1);
    ReadBytes([b0, b1, b2, b3], rest, 2);
    ReadBytes([b0, b1, b2, b3], rest, 3);
  }


  /** The three `%XX` bytes of a character between U+0800 and U+FFFF, read back. */
  lemma ThreeBytesAt(c: char, rest: string)
    requires !Unreserved(c) && 0x800 <= c as int < 0x1_0000
    ensures var s, v := EncodeChar(c) + rest, c as int;
      && |EncodeChar(c)| == 9
      && ByteAt(s, 0) == Some(0xE0 + v / 0x1000)
      && ContinuationAt(s, 3) == Some((v / 0x40) % 0x40)
      && ContinuationAt(s, 6) == Some(v % 0x40)
  {
    var v := c as int;
    var b0, b1, b2 := 0xE0 + v / 0x1000, 0x80 + (v / 0x40) % 0x40, 0x80 + v % 0x40;
    assert Utf8(c) == [b0, b1, b2];
    ReadThree(b0, b1, b2, rest);
  }

  lemma DecodeThreeBytes(c: char, rest: string)
    requires !Unreserved(c) && 0x800 <= c as int < 0x1_0000
    ensures DecodeFirst(EncodeChar(c) + rest) == Some((c, |EncodeChar(c)|))
  {
    var v := c as int;
    ThreeBytesAt(c, rest);
    ThreeByteDigits(v);
    var s := EncodeChar(c) + rest;
    assert DecodeFirst(s) == Scalar((v / 0x1000) * 0x1000 + ((v / 0x40) % 0x40) * 0x40 + v % 0x40, 0x800, 9);
  }

  /** The four `%XX` bytes of a character above U+FFFF, read back. */
  lemma FourBytesAt(c: char, rest: string)
    requires !Unreserved(c) && 0x1_0000 <= c as int
    ensures var s, v := EncodeChar(c) + rest, c as int;
      && |EncodeChar(c)| == 12
      && ByteAt(s, 0) == Some(0xF0 + v / 0x4_0000)
      && ContinuationAt(s, 3) == Some((v / 0x1000) % 0x40)
      && ContinuationAt(s, 6) == Some((v / 0x40) % 0x40)
      && ContinuationAt(s, 9) == Some(v % 0x40)
  {
    var v := c as int;
    var b0, b1, b2, b3 := 0xF0 + v / 0x4_0000, 0x80 + (v / 0x1000) % 0x40, 0x80 + (v / 0x40) % 0x40, 0x80 + v % 0x40;
    assert Utf8(c) == [b0, b1, b2, b3];
    ReadFour(b0, b1, b2, b3, rest);
  }

  lemma DecodeFourBytes(c: char, rest: string)
    requires !Unreserved(c) && 0x1_0000 <= c as int
    ensures DecodeFirst(EncodeChar(c) + rest) == Some((c, |EncodeChar(c)|))
  {
    var v := c as int;
    FourBytesAt(c, rest);
    FourByteDigits(v);
    var s := EncodeChar(c) + rest;
    assert DecodeFirst(s) == Scalar((v / 0x4_0000) * 0x4_0000 + ((v / 0x1000) % 0x40) * 0x1000 + ((v / 0x40) % 0x40) * 0x40 + v % 0x40, 0x1_0000, 12);
  }

  /** `decodeURIComponent(encodeURIComponent(s)) === s` for every string of scalar values. */
  lemma {:induction false} DecodeEncode(s: string)
    ensures Decode(Encode(s)) == Some(s)
  {
    if s != [] {
      var e := EncodeChar(s[0]);
      var tail := Encode(s[1..]);
      assert Encode(s) == e + tail;
      DecodeFirstEncodeChar(s[0], tail);
      assert (e + tail)[|e|..] == tail;
      DecodeEncode(s[1..]);
      assert [s[0]] + s[1..] == s;
    }
  }
}
