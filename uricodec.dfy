/** ECMAScript's `encodeURIComponent` and `decodeURIComponent` (ECMA-262, section 19.2.6,
    and the Encode and Decode operations it uses): every character outside
    A-Z a-z 0-9 - _ . ! ~ * ' ( ) is written as the UTF-8 bytes of its code point, each
    as '%' and two upper-case hex digits; decoding reverses that and fails (URIError) on
    a truncated or non-hex escape, on a lead byte that is a continuation byte or longer
    than four bytes, on a bad continuation byte, and on bytes that do not encode a
    Unicode scalar value in the shortest form. Also the UTF-8 length that
    `Buffer.from(s).length` reports. */
module UriCodec {
  import opened Wrappers

  type Byte = b: int | 0 <= b < 256

  // ---------------------------------------------------------------- UTF-8

  /** The UTF-8 bytes of one character. */
  function Utf8Char(c: char): (r: seq<Byte>)
    ensures 1 <= |r| <= 4
  {
    var cp := c as int;
    if cp < 0x80 then [cp]
    else if cp < 0x800 then [0xC0 + cp / 64, 0x80 + cp % 64]
    else if cp < 0x10000 then [0xE0 + cp / 4096, 0x80 + (cp / 64) % 64, 0x80 + cp % 64]
    else [0xF0 + cp / 262144, 0x80 + (cp / 4096) % 64, 0x80 + (cp / 64) % 64, 0x80 + cp % 64]
  }

  /** `Buffer.from(s)`: the UTF-8 encoding of a string. */
  function Utf8(s: string): (r: seq<Byte>)
    ensures |r| >= |s|
  {
    if s == [] then [] else Utf8Char(s[0]) + Utf8(s[1..])
  }

  lemma {:induction false} Utf8Append(a: string, b: string)
    ensures Utf8(a + b) == Utf8(a) + Utf8(b)
  {
    if a == [] {
      assert a + b == b;
    } else {
      assert (a + b)[1..] == a[1..] + b;
      Utf8Append(a[1..], b);
    }
  }

  /** A string of ASCII characters takes one byte per character. */
  lemma {:induction false} Utf8Ascii(s: string)
    requires forall i :: 0 <= i < |s| ==> s[i] as int < 0x80
    ensures |Utf8(s)| == |s|
  {
    if s != [] {
      Utf8Ascii(s[1..]);
    }
  }

  // ---------------------------------------------------------------- hex

  function HexDigit(d: int): char
    requires 0 <= d < 16
  {
    "0123456789ABCDEF"[d]
  }

  predicate IsHex(c: char)
  {
    ('0' <= c <= '9') || ('A' <= c <= 'F') || ('a' <= c <= 'f')
  }

  function HexValue(c: char): (v: int)
    requires IsHex(c)
    ensures 0 <= v < 16
  {
    if '0' <= c <= '9' then c as int - '0' as int
    else if 'A' <= c <= 'F' then c as int - 'A' as int + 10
    else c as int - 'a' as int + 10
  }

  lemma HexDigitValue(d: int)
    requires 0 <= d < 16
    ensures IsHex(HexDigit(d)) && HexValue(HexDigit(d)) == d
  {
  }

  /** A byte as '%' and two upper-case hex digits. */
  function Escape(b: Byte): string
  {
    ['%', HexDigit(b / 16), HexDigit(b % 16)]
  }

  function EscapeAll(bs: seq<Byte>): (r: string)
    ensures |r| == 3 * |bs|
  {
    if bs == [] then "" else Escape(bs[0]) + EscapeAll(bs[1..])
  }

  // ---------------------------------------------------------------- encode

  /** The characters `encodeURIComponent` leaves as they are. */
  predicate Unreserved(c: char)
  {
    ('A' <= c <= 'Z') || ('a' <= c <= 'z') || ('0' <= c <= '9')
    || c in {'-', '_', '.', '!', '~', '*', '\'', '(', ')'}
  }

  function EncodeChar(c: char): string
  {
    if Unreserved(c) then [c] else EscapeAll(Utf8Char(c))
  }

  /** `encodeURIComponent(s)`. Dafny characters are Unicode scalar values, so the
      URIError that JavaScript raises for an unpaired surrogate cannot arise. */
  function EncodeURIComponent(s: string): string
  {
    if s == [] then "" else EncodeChar(s[0]) + EncodeURIComponent(s[1..])
  }

  /** The encoding consists of unreserved characters and escapes only: no '/', no
      space, no '%' that does not start an escape. */
  lemma {:induction false} EncodedIsSafe(s: string)
    ensures forall i :: 0 <= i < |EncodeURIComponent(s)| ==>
      var c := EncodeURIComponent(s)[i]; Unreserved(c) || c == '%' || IsHex(c)
  {
    if s != [] {
      EncodedIsSafe(s[1..]);
      EscapeAllSafe(Utf8Char(s[0]));
    }
  }

  lemma {:induction false} EscapeAllSafe(bs: seq<Byte>)
    ensures forall i :: 0 <= i < |EscapeAll(bs)| ==> EscapeAll(bs)[i] == '%' || IsHex(EscapeAll(bs)[i])
  {
    if bs != [] {
      EscapeAllSafe(bs[1..]);
      HexDigitValue(bs[0] / 16);
      HexDigitValue(bs[0] % 16);
    }
  }

  // ---------------------------------------------------------------- decode

  /** The byte written by the escape at position k of s, if there is a well-formed one. */
  function EscapedByte(s: string, k: nat): Option<Byte>
  {
    if k + 2 < |s| && s[k] == '%' && IsHex(s[k + 1]) && IsHex(s[k + 2])
    then Some(HexValue(s[k + 1]) * 16 + HexValue(s[k + 2]))
    else None
  }

  /** The payload bits of the continuation byte escaped at position k, if it is one. */
  function Continuation(s: string, k: nat): Option<int>
  {
    match EscapedByte(s, k)
    case Some(b) => if 0x80 <= b < 0xC0 then Some(b - 0x80) else None
    case None => None
  }

  /** Decodes the escape sequence that starts s (s[0] == '%'): the character and how
      many characters of s it used, or None where decoding throws URIError. */
  function DecodeEscape(s: string): (r: Option<(char, nat)>)
    ensures r.Some? ==> 3 <= r.value.1 <= |s|
  {
    match EscapedByte(s, 0)
    case None => None
    case Some(b0) =>
      if b0 < 0x80 then Some((b0 as char, 3))
      else if b0 < 0xC0 || b0 >= 0xF8 then None
      else if b0 < 0xE0 then
        match Continuation(s, 3)
        case None => None
        case Some(c1) =>
          var cp := (b0 - 0xC0) * 64 + c1;
          if cp < 0x80 then None else Some((cp as char, 6))
      else if b0 < 0xF0 then
        match (Continuation(s, 3), Continuation(s, 6))
        case (Some(c1), Some(c2)) =>
          var cp := (b0 - 0xE0) * 4096 + c1 * 64 + c2;
          if cp < 0x800 || (0xD800 <= cp < 0xE000) then None else Some((cp as char, 9))
        case _ => None
      else
        match (Continuation(s, 3), Continuation(s, 6), Continuation(s, 9))
        case (Some(c1), Some(c2), Some(c3)) =>
          var cp := (b0 - 0xF0) * 262144 + c1 * 4096 + c2 * 64 + c3;
          if cp < 0x10000 || cp >= 0x110000 then None else Some((cp as char, 12))
        case _ => None
  }

  /** `decodeURIComponent(s)`; None where it throws URIError. */
  function DecodeURIComponent(s: string): Option<string>
    decreases |s|
  {
    if s == [] then Some("")
    else if s[0] != '%' then
      match DecodeURIComponent(s[1..])
      case Some(rest) => Some([s[0]] + rest)
      case None => None
    else
      match DecodeEscape(s)
      case None => None
      case Some((c, used)) =>
        match DecodeURIComponent(s[used..])
        case Some(rest) => Some([c] + rest)
        case None => None
  }

  // ---------------------------------------------------------------- round trip

  lemma EscapedByteOf(b: Byte, rest: string)
    ensures EscapedByte(Escape(b) + rest, 0) == Some(b)
  {
    HexDigitValue(b / 16);
    HexDigitValue(b % 16);
  }

  lemma ContinuationOf(prefix: string, b: Byte, rest: string)
    requires 0x80 <= b < 0xC0
    ensures Continuation(prefix + Escape(b) + rest, |prefix|) == Some(b - 0x80)
  {
    var s := prefix + Escape(b) + rest;
    assert s[|prefix|..] == Escape(b) + rest;
    EscapedByteOf(b, rest);
    HexDigitValue(b / 16);
    HexDigitValue(b % 16);
  }

  lemma DecodeEscape2(c: char, rest: string)
    requires 0x80 <= c as int < 0x800
    ensures DecodeEscape(EncodeChar(c) + rest) == Some((c, 6))
    ensures |EncodeChar(c)| == 6
  {
    var cp := c as int;
    var q0, q1 := cp / 64, cp % 64;
    assert 2 <= q0 < 32 && q0 * 64 + q1 == cp;
    var b0, b1 := 0xC0 + q0, 0x80 + q1;
    assert EncodeChar(c) == Escape(b0) + Escape(b1) by {
      assert !Unreserved(c);
      assert Utf8Char(c) == [b0, b1];
      assert EscapeAll([b0, b1]) == Escape(b0) + EscapeAll([b1]);
      assert EscapeAll([b1]) == Escape(b1) + EscapeAll([]);
    }
    var s := Escape(b0) + Escape(b1) + rest;
    assert EscapedByte(s, 0) == Some(b0) && Continuation(s, 3) == Some(q1) by {
      EscapedByteOf(b0, Escape(b1) + rest);
      assert s == Escape(b0) + (Escape(b1) + rest);
      ContinuationOf(Escape(b0), b1, rest);
    }
    DecodeTwoBytes(s, b0, q1);
  }

  lemma DecodeTwoBytes(s: string, b0: int, c1: int)
    requires 0xC0 <= b0 < 0xE0 && EscapedByte(s, 0) == Some(b0) && Continuation(s, 3) == Some(c1)
    requires 0x80 <= (b0 - 0xC0) * 64 + c1 < 0x800
    ensures DecodeEscape(s) == Some((((b0 - 0xC0) * 64 + c1) as char, 6))
  {
  }

  lemma Split3(cp: int)
    requires 0x800 <= cp < 0x10000
    ensures 0xE0 <= 0xE0 + cp / 4096 < 0xF0
    ensures 0 <= (cp / 64) % 64 < 64 && 0 <= cp % 64 < 64
    ensures (cp / 4096) * 4096 + ((cp / 64) % 64) * 64 + cp % 64 == cp
  {
  }

  lemma Split4(cp: int)
    requires 0x10000 <= cp < 0x110000
    ensures 0xF0 <= 0xF0 + cp / 262144 < 0xF8
    ensures 0 <= (cp / 4096) % 64 < 64 && 0 <= (cp / 64) % 64 < 64 && 0 <= cp % 64 < 64
    ensures (cp / 262144) * 262144 + ((cp / 4096) % 64) * 4096 + ((cp / 64) % 64) * 64 + cp % 64 == cp
  {
  }

  lemma Escapes3(b0: Byte, b1: Byte, b2: Byte, rest: string)
    requires 0x80 <= b1 < 0xC0 && 0x80 <= b2 < 0xC0
    ensures var s := Escape(b0) + Escape(b1) + Escape(b2) + rest;
      EscapedByte(s, 0) == Some(b0) && Continuation(s, 3) == Some(b1 - 0x80)
      && Continuation(s, 6) == Some(b2 - 0x80)
  {
    var e0, e1, e2 := Escape(b0), Escape(b1), Escape(b2);
    var s := e0 + e1 + e2 + rest;
    assert EscapedByte(s, 0) == Some(b0) by {
      assert s == e0 + (e1 + e2 + rest);
      EscapedByteOf(b0, e1 + e2 + rest);
    }
    assert Continuation(s, 3) == Some(b1 - 0x80) by {
      assert s == e0 + e1 + (e2 + rest);
      ContinuationOf(e0, b1, e2 + rest);
    }
    assert Continuation(s, 6) == Some(b2 - 0x80) by {
      ContinuationOf(e0 + e1, b2, rest);
    }
  }

  lemma DecodeThreeBytes(s: string, b0: int, c1: int, c2: int)
    requires 0xE0 <= b0 < 0xF0 && EscapedByte(s, 0) == Some(b0)
    requires Continuation(s, 3) == Some(c1) && Continuation(s, 6) == Some(c2)
    requires var cp := (b0 - 0xE0) * 4096 + c1 * 64 + c2; 0x800 <= cp < 0x10000 && !(0xD800 <= cp < 0xE000)
    ensures DecodeEscape(s) == Some((((b0 - 0xE0) * 4096 + c1 * 64 + c2) as char, 9))
  {
  }

  lemma DecodeEscape3(c: char, rest: string)
    requires 0x800 <= c as int < 0x10000
    ensures DecodeEscape(EncodeChar(c) + rest) == Some((c, 9))
    ensures |EncodeChar(c)| == 9
  {
    var cp := c as int;
    var q0, q1, q2 := cp / 4096, (cp / 64) % 64, cp % 64;
    Split3(cp);
    var b0, b1, b2 := 0xE0 + q0, 0x80 + q1, 0x80 + q2;
    assert EncodeChar(c) == Escape(b0) + Escape(b1) + Escape(b2) by {
      assert !Unreserved(c);
      assert Utf8Char(c) == [b0, b1, b2];
      assert EscapeAll([b0, b1, b2]) == Escape(b0) + EscapeAll([b1, b2]);
      assert EscapeAll([b1, b2]) == Escape(b1) + EscapeAll([b2]);
      assert EscapeAll([b2]) == Escape(b2) + EscapeAll([]);
    }
    Escapes3(b0, b1, b2, rest);
    assert q0 * 4096 + q1 * 64 + q2 == cp;
    DecodeThreeBytes(Escape(b0) + Escape(b1) + Escape(b2) + rest, b0, q1, q2);
  }

  lemma Escapes4(b0: Byte, b1: Byte, b2: Byte, b3: Byte, rest: string)
    requires 0x80 <= b1 < 0xC0 && 0x80 <= b2 < 0xC0 && 0x80 <= b3 < 0xC0
    ensures var s := Escape(b0) + Escape(b1) + Escape(b2) + Escape(b3) + rest;
      EscapedByte(s, 0) == Some(b0) && Continuation(s, 3) == Some(b1 - 0x80)
      && Continuation(s, 6) == Some(b2 - 0x80) && Continuation(s, 9) == Some(b3 - 0x80)
  {
    var e0, e1, e2, e3 := Escape(b0), Escape(b1), Escape(b2), Escape(b3);
    var s := e0 + e1 + e2 + e3 + rest;
    assert EscapedByte(s, 0) == Some(b0) by {
      assert s == e0 + (e1 + e2 + e3 + rest);
      EscapedByteOf(b0, e1 + e2 + e3 + rest);
    }
    assert Continuation(s, 3) == Some(b1 - 0x80) by {
      assert s == e0 + e1 + (e2 + e3 + rest);
      ContinuationOf(e0, b1, e2 + e3 + rest);
    }
    assert Continuation(s, 6) == Some(b2 - 0x80) by {
      assert s == e0 + e1 + e2 + (e3 + rest);
      ContinuationOf(e0 + e1, b2, e3 + rest);
    }
    assert Continuation(s, 9) == Some(b3 - 0x80) by {
      ContinuationOf(e0 + e1 + e2, b3, rest);
    }
  }

  lemma EscapeAll4(b0: Byte, b1: Byte, b2: Byte, b3: Byte)
    ensures EscapeAll([b0, b1, b2, b3]) == Escape(b0) + Escape(b1) + Escape(b2) + Escape(b3)
  {
    assert [b0, b1, b2, b3][1..] == [b1, b2, b3];
    assert [b1, b2, b3][1..] == [b2, b3];
    assert [b2, b3][1..] == [b3];
    calc {
      EscapeAll([b0, b1, b2, b3]);
      Escape(b0) + EscapeAll([b1, b2, b3]);
      Escape(b0) + (Escape(b1) + EscapeAll([b2, b3]));
      Escape(b0) + (Escape(b1) + (Escape(b2) + EscapeAll([b3])));
      Escape(b0) + (Escape(b1) + (Escape(b2) + (Escape(b3) + EscapeAll([]))));
      Escape(b0) + Escape(b1) + Escape(b2) + Escape(b3);
    }
  }

  lemma DecodeFourBytes(s: string, b0: int, c1: int, c2: int, c3: int)
    requires 0xF0 <= b0 < 0xF8 && EscapedByte(s, 0) == Some(b0)
    requires Continuation(s, 3) == Some(c1) && Continuation(s, 6) == Some(c2)
    requires Continuation(s, 9) == Some(c3)
    requires 0x10000 <= (b0 - 0xF0) * 262144 + c1 * 4096 + c2 * 64 + c3 < 0x110000
    ensures DecodeEscape(s) == Some((((b0 - 0xF0) * 262144 + c1 * 4096 + c2 * 64 + c3) as char, 12))
  {
  }

  lemma DecodeEscape4(c: char, rest: string)
    requires 0x10000 <= c as int
    ensures DecodeEscape(EncodeChar(c) + rest) == Some((c, 12))
    ensures |EncodeChar(c)| == 12
  {
    var cp := c as int;
    var q0, q1, q2, q3 := cp / 262144, (cp / 4096) % 64, (cp / 64) % 64, cp % 64;
    Split4(cp);
    var b0, b1, b2, b3 := 0xF0 + q0, 0x80 + q1, 0x80 + q2, 0x80 + q3;
    assert EncodeChar(c) == Escape(b0) + Escape(b1) + Escape(b2) + Escape(b3) by {
      assert !Unreserved(c);
      assert Utf8Char(c) == [b0, b1, b2, b3];
      EscapeAll4(b0, b1, b2, b3);
    }
    Escapes4(b0, b1, b2, b3, rest);
    assert q0 * 262144 + q1 * 4096 + q2 * 64 + q3 == cp;
    DecodeFourBytes(Escape(b0) + Escape(b1) + Escape(b2) + Escape(b3) + rest, b0, q1, q2, q3);
  }

  /** The escapes of a character's UTF-8 bytes decode to that character. */
  lemma DecodeEscapeOf(c: char, rest: string)
    requires !Unreserved(c)
    ensures DecodeEscape(EncodeChar(c) + rest) == Some((c, |EncodeChar(c)|))
  {
    var cp := c as int;
    if cp < 0x80 {
      assert EncodeChar(c) == Escape(cp) by {
        assert EncodeChar(c) == Escape(cp) + EscapeAll([]);
      }
      EscapedByteOf(cp, rest);
    } else if cp < 0x800 {
      DecodeEscape2(c, rest);
    } else if cp < 0x10000 {
      DecodeEscape3(c, rest);
    } else {
      DecodeEscape4(c, rest);
    }
  }

  lemma DecodeEncodeChar(c: char, rest: string)
    ensures DecodeURIComponent(EncodeChar(c) + rest) ==
      (match DecodeURIComponent(rest) case Some(r) => Some([c] + r) case None => None)
  {
    var s := EncodeChar(c) + rest;
    if Unreserved(c) {
      assert s[1..] == rest;
    } else {
      DecodeEscapeOf(c, rest);
      assert s[|EncodeChar(c)|..] == rest;
    }
  }

  /** Decoding undoes encoding, for every string. */
  lemma {:induction false} DecodeEncode(s: string)
    ensures DecodeURIComponent(EncodeURIComponent(s)) == Some(s)
  {
    if s != [] {
      DecodeEncode(s[1..]);
      DecodeEncodeChar(s[0], EncodeURIComponent(s[1..]));
      assert [s[0]] + s[1..] == s;
    }
  }

  /** A string without '%' decodes to itself. */
  lemma {:induction false} DecodePlain(s: string)
    requires '%' !in s
    ensures DecodeURIComponent(s) == Some(s)
  {
    if s != [] {
      DecodePlain(s[1..]);
      assert [s[0]] + s[1..] == s;
    }
  }

  /** decodeURIComponent throws on a '%' not followed by two hex digits ("100%"), on a
      lone continuation byte ("%80") and on an overlong encoding ("%C0%AF"). */
  lemma DecodeFailures()
    ensures DecodeURIComponent("%") == None
    ensures DecodeURIComponent("%zz") == None
    ensures DecodeURIComponent("%80") == None
    ensures DecodeURIComponent("%C0%AF") == None
  {
    assert HexValue('8') == 8 && HexValue('0') == 0;
    assert HexValue('C') == 12 && HexValue('A') == 10 && HexValue('F') == 15;
    assert EscapedByte("%80", 0) == Some(0x80);
    assert EscapedByte("%C0%AF", 0) == Some(0xC0);
    assert EscapedByte("%C0%AF", 3) == Some(0xAF);
  }
}
