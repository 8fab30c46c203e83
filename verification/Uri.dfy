/** The host's `encodeURIComponent` and `decodeURIComponent`: percent-encoding
    of the UTF-8 bytes of a string (section 2.1 of RFC 3986, with the UTF-8
    of RFC 3629) as ECMAScript defines them. */
module Uri {
  import opened Wrappers

  type Byte = b: int | 0 <= b < 0x100

  predicate IsHexDigit(c: char) {
    ('0' <= c <= '9') || ('a' <= c <= 'f') || ('A' <= c <= 'F')
  }

  function HexValue(c: char): (n: nat)
    requires IsHexDigit(c)
    ensures n < 16
  {
    if '0' <= c <= '9' then c as int - '0' as int
    else if 'a' <= c <= 'f' then c as int - 'a' as int + 10
    else c as int - 'A' as int + 10
  }

  /** The upper-case hexadecimal digit `encodeURIComponent` writes. */
  function HexDigit(n: nat): (c: char)
    requires n < 16
    ensures IsHexDigit(c) && HexValue(c) == n
  {
    if n < 10 then ('0' as int + n) as char else ('A' as int + n - 10) as char
  }

  /** The characters `encodeURIComponent` leaves as they are: letters,
      digits and `- _ . ! ~ * ' ( )`. */
  predicate IsUnescaped(c: char) {
    ('A' <= c <= 'Z') || ('a' <= c <= 'z') || ('0' <= c <= '9') ||
    c == '-' || c == '_' || c == '.' || c == '!' || c == '~' || c == '*' ||
    c == '\'' || c == '(' || c == ')'
  }

  /** The UTF-8 encoding of one code point. */
  function Utf8(c: char): (bytes: seq<Byte>)
  {
    var n := c as int;
    if n < 0x80 then [n]
    else if n < 0x800 then [0xC0 + n / 64, 0x80 + n % 64]
    else if n < 0x10000 then [0xE0 + n / 4096, 0x80 + (n / 64) % 64, 0x80 + n % 64]
    else [0xF0 + n / 262144, 0x80 + (n / 4096) % 64, 0x80 + (n / 64) % 64, 0x80 + n % 64]
  }

  /** `%XY` for one byte. */
  function Escape(b: Byte): string {
    ['%', HexDigit(b / 16), HexDigit(b % 16)]
  }

  function EscapeAll(bytes: seq<Byte>): (r: string)
    ensures |r| == 3 * |bytes|
  {
    if bytes == [] then [] else Escape(bytes[0]) + EscapeAll(bytes[1..])
  }

  function EncodeChar(c: char): string {
    if IsUnescaped(c) then [c] else EscapeAll(Utf8(c))
  }

  /** `encodeURIComponent(s)`. Every string of scalar values is encodable,
      so it never throws here. */
  function EncodeURIComponent(s: string): (r: string)
    ensures forall i :: 0 <= i < |r| ==> IsUnescaped(r[i]) || r[i] == '%' || IsHexDigit(r[i])
  {
    if s == [] then []
    else
      var head := EncodeChar(s[0]);
      EscapesAreHex(Utf8(s[0]));
      head + EncodeURIComponent(s[1..])
  }

  lemma {:induction false} EscapesAreHex(bytes: seq<Byte>)
    ensures forall i :: 0 <= i < |EscapeAll(bytes)| ==> EscapeAll(bytes)[i] == '%' || IsHexDigit(EscapeAll(bytes)[i])
  {
    if bytes != [] {
      EscapesAreHex(bytes[1..]);
      var r := EscapeAll(bytes);
      assert r == Escape(bytes[0]) + EscapeAll(bytes[1..]);
      forall i | 0 <= i < |r| ensures r[i] == '%' || IsHexDigit(r[i]) {
        if i >= 3 {
          assert r[i] == EscapeAll(bytes[1..])[i - 3];
        }
      }
    }
  }

  /** The byte written as `%XY` at the start of `s`, if it is one. */
  function ReadByte(s: string): Option<Byte>
  {
    if |s| >= 3 && s[0] == '%' && IsHexDigit(s[1]) && IsHexDigit(s[2])
    then Some(16 * HexValue(s[1]) + HexValue(s[2]))
    else None
  }

  /** The length of the UTF-8 sequence a lead byte announces; 0 when the
      byte cannot start one (its leading one-bits number 1 or more than 4). */
  function SequenceLength(b: Byte): nat {
    if b < 0x80 then 1
    else if b < 0xC0 then 0
    else if b < 0xE0 then 2
    else if b < 0xF0 then 3
    else if b < 0xF8 then 4
    else 0
  }

  predicate IsContinuation(b: Byte) {
    0x80 <= b < 0xC0
  }

  /** Reads `m` escaped continuation bytes. */
  function ReadContinuations(s: string, m: nat): (r: Option<seq<Byte>>)
    ensures r.Some? ==> |r.value| == m && 3 * m <= |s|
    ensures r.Some? ==> forall i :: 0 <= i < m ==> IsContinuation(r.value[i])
  {
    if m == 0 then Some([])
    else match ReadByte(s)
      case None => None
      case Some(b) =>
        if !IsContinuation(b) then None
        else match ReadContinuations(s[3..], m - 1)
          case None => None
          case Some(rest) => Some([b] + rest)
  }

  /** The scalar value a multi-byte sequence encodes; `None` for an
      overlong form, a surrogate or a value beyond U+10FFFF. */
  function CodePoint(lead: Byte, cont: seq<Byte>): Option<char>
    requires 2 <= SequenceLength(lead) && |cont| == SequenceLength(lead) - 1
    requires forall i :: 0 <= i < |cont| ==> IsContinuation(cont[i])
  {
    if |cont| == 1 then
      var v := (lead as int - 0xC0) * 64 + (cont[0] as int - 0x80);
      if 0x80 <= v then Some(v as char) else None
    else if |cont| == 2 then
      var v := (lead as int - 0xE0) * 4096 + (cont[0] as int - 0x80) * 64 + (cont[1] as int - 0x80);
      if 0x800 <= v && !(0xD800 <= v < 0xE000) then Some(v as char) else None
    else
      var v := (lead as int - 0xF0) * 262144 + (cont[0] as int - 0x80) * 4096
        + (cont[1] as int - 0x80) * 64 + (cont[2] as int - 0x80);
      if 0x10000 <= v <= 0x10FFFF then Some(v as char) else None
  }

  function Prepend(c: char, r: Option<string>): Option<string> {
    match r
    case None => None
    case Some(t) => Some([c] + t)
  }

  /** `decodeURIComponent(s)`; `None` where it throws `URIError` (a `%`
      not followed by two hex digits, a bad lead or continuation byte, a
      truncated or ill-formed UTF-8 sequence). */
  function DecodeURIComponent(s: string): (r: Option<string>)
    ensures (forall i :: 0 <= i < |s| ==> s[i] != '%') ==> r == Some(s)
    decreases |s|
  {
    if s == [] then Some([])
    else if s[0] != '%' then
      assert [s[0]] + s[1..] == s;
      Prepend(s[0], DecodeURIComponent(s[1..]))
    else match ReadByte(s)
      case None => None
      case Some(b) =>
        var n := SequenceLength(b);
        if n == 1 then Prepend(b as char, DecodeURIComponent(s[3..]))
        else if n == 0 || |s| < 3 * n then None
        else match ReadContinuations(s[3..], n - 1)
          case None => None
          case Some(cont) =>
            match CodePoint(b, cont)
            case None => None
            case Some(c) => Prepend(c, DecodeURIComponent(s[3 * n..]))
  }

  lemma ReadEscape(b: Byte, rest: string)
    ensures ReadByte(Escape(b) + rest) == Some(b)
  {
    var t := Escape(b) + rest;
    assert t[0] == '%' && t[1] == HexDigit(b / 16) && t[2] == HexDigit(b % 16);
  }

  /** An escaped continuation byte in front of `m` more is read with them. */
  lemma ReadEscapeThen(b: Byte, tail: string, m: nat)
    requires IsContinuation(b)
    ensures ReadContinuations(Escape(b) + tail, m + 1) ==
      match ReadContinuations(tail, m)
      case None => None
      case Some(rest) => Some([b] + rest)
  {
    var t := Escape(b) + tail;
    ReadEscape(b, tail);
    assert t[3..] == tail;
  }

  lemma {:induction false} ReadEscapes(bytes: seq<Byte>, rest: string)
    requires forall i :: 0 <= i < |bytes| ==> IsContinuation(bytes[i])
    ensures ReadContinuations(EscapeAll(bytes) + rest, |bytes|) == Some(bytes)
  {
    if bytes != [] {
      var tail := EscapeAll(bytes[1..]) + rest;
      assert EscapeAll(bytes) + rest == Escape(bytes[0]) + tail;
      ReadEscapeThen(bytes[0], tail, |bytes| - 1);
      ReadEscapes(bytes[1..], rest);
      assert [bytes[0]] + bytes[1..] == bytes;
    }
  }

  /** The digits of a two-byte code point. */
  lemma TwoByteDigits(n: int)
    requires 0x80 <= n < 0x800
    ensures 2 <= n / 64 < 32 && (n / 64) * 64 + n % 64 == n
  {
  }

  /** The digits of a three-byte code point; the second byte is narrowed
      after the lead bytes 0xE0 and 0xED. */
  lemma ThreeByteDigits(n: int)
    requires 0x800 <= n < 0x10000 && !(0xD800 <= n < 0xE000)
    ensures n / 4096 < 16 && (n / 4096) * 4096 + ((n / 64) % 64) * 64 + n % 64 == n
    ensures n / 4096 == 0 ==> 32 <= (n / 64) % 64
    ensures n / 4096 == 13 ==> (n / 64) % 64 < 32
  {
    assert n / 64 == (n / 4096) * 64 + (n / 64) % 64;
  }

  /** The digits of a four-byte code point; the second byte is narrowed
      after the lead bytes 0xF0 and 0xF4. */
  lemma FourByteDigits(n: int)
    requires 0x10000 <= n <= 0x10FFFF
    ensures n / 262144 <= 4
    ensures (n / 262144) * 262144 + ((n / 4096) % 64) * 4096 + ((n / 64) % 64) * 64 + n % 64 == n
    ensures n / 262144 == 0 ==> 16 <= (n / 4096) % 64
    ensures n / 262144 == 4 ==> (n / 4096) % 64 < 16
  {
    assert n / 4096 == (n / 262144) * 64 + (n / 4096) % 64;
    assert n / 64 == (n / 4096) * 64 + (n / 64) % 64;
  }

  /** The UTF-8 bytes of a code point form a sequence the decoder accepts
      and maps back to that code point. */
  lemma Utf8Decodes(c: char)
    ensures var bytes := Utf8(c);
      && SequenceLength(bytes[0]) == |bytes|
      && (forall i :: 1 <= i < |bytes| ==> IsContinuation(bytes[i]))
      && (|bytes| == 1 ==> bytes[0] as char == c)
      && (|bytes| >= 2 ==> CodePoint(bytes[0], bytes[1..]) == Some(c))
  {
    var n := c as int;
    if n < 0x80 {
    } else if n < 0x800 {
      TwoByteDigits(n);
    } else if n < 0x10000 {
      ThreeByteDigits(n);
    } else {
      FourByteDigits(n);
    }
  }

  lemma DecodeEncodedChar(c: char, rest: string)
    ensures DecodeURIComponent(EncodeChar(c) + rest) == Prepend(c, DecodeURIComponent(rest))
  {
    var t := EncodeChar(c) + rest;
    if IsUnescaped(c) {
      assert t[1..] == rest;
    } else {
      var bytes := Utf8(c);
      Utf8Decodes(c);
      assert t == Escape(bytes[0]) + (EscapeAll(bytes[1..]) + rest);
      ReadEscape(bytes[0], EscapeAll(bytes[1..]) + rest);
      var n := |bytes|;
      assert t[3..] == EscapeAll(bytes[1..]) + rest;
      if n == 1 {
        assert t[3..] == rest;
      } else {
        ReadEscapes(bytes[1..], rest);
        assert t[3 * n..] == rest;
      }
    }
  }

  /** Decoding undoes encoding: `decodeURIComponent(encodeURIComponent(s)) == s`. */
  lemma {:induction false} DecodeEncode(s: string)
    ensures DecodeURIComponent(EncodeURIComponent(s)) == Some(s)
  {
    if s != [] {
      DecodeEncode(s[1..]);
      DecodeEncodedChar(s[0], EncodeURIComponent(s[1..]));
      assert [s[0]] + s[1..] == s;
    }
  }
}
