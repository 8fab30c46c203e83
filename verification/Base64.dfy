/** The host's `btoa` and `atob`: base64 with the alphabet and padding of
    section 4 of RFC 4648, over strings whose characters stand for bytes
    (U+0000 to U+00FF). `atob` is the forgiving decoder browsers and Node use:
    ASCII whitespace is skipped, padding is optional, and a final group of two
    or three characters is accepted. */
module Base64 {
  import opened Wrappers
  import Strings

  predicate IsBase64Char(c: char) {
    ('A' <= c <= 'Z') || ('a' <= c <= 'z') || ('0' <= c <= '9') || c == '+' || c == '/'
  }

  function SextetValue(c: char): (n: nat)
    requires IsBase64Char(c)
    ensures n < 64
  {
    if 'A' <= c <= 'Z' then c as int - 'A' as int
    else if 'a' <= c <= 'z' then c as int - 'a' as int + 26
    else if '0' <= c <= '9' then c as int - '0' as int + 52
    else if c == '+' then 62
    else 63
  }

  function SextetChar(n: nat): (c: char)
    requires n < 64
    ensures IsBase64Char(c) && SextetValue(c) == n
  {
    if n < 26 then ('A' as int + n) as char
    else if n < 52 then ('a' as int + n - 26) as char
    else if n < 62 then ('0' as int + n - 52) as char
    else if n == 62 then '+'
    else '/'
  }

  /** Every character stands for one byte; `btoa` throws otherwise. */
  predicate IsLatin1(s: string) {
    forall i :: 0 <= i < |s| ==> s[i] as int < 0x100
  }

  /** The base64 characters of `s` without padding: four for every three
      bytes, then two for a last single byte or three for a last pair. */
  /** The four characters of a group of three bytes. */
  function EncodeTriple(a: int, b: int, c: int): (r: string)
    requires 0 <= a < 0x100 && 0 <= b < 0x100 && 0 <= c < 0x100
    ensures |r| == 4 && forall i :: 0 <= i < 4 ==> IsBase64Char(r[i])
  {
    [SextetChar(a / 4), SextetChar((a % 4) * 16 + b / 16), SextetChar((b % 16) * 4 + c / 64), SextetChar(c % 64)]
  }

  /** The three characters of a last pair of bytes. */
  function EncodePair(a: int, b: int): (r: string)
    requires 0 <= a < 0x100 && 0 <= b < 0x100
    ensures |r| == 3 && forall i :: 0 <= i < 3 ==> IsBase64Char(r[i])
  {
    [SextetChar(a / 4), SextetChar((a % 4) * 16 + b / 16), SextetChar((b % 16) * 4)]
  }

  /** The two characters of a last single byte. */
  function EncodeSingle(a: int): (r: string)
    requires 0 <= a < 0x100
    ensures |r| == 2 && forall i :: 0 <= i < 2 ==> IsBase64Char(r[i])
  {
    [SextetChar(a / 4), SextetChar((a % 4) * 16)]
  }

  /** The base64 characters of `s` without padding: four for every three
      bytes, then two for a last single byte or three for a last pair. */
  function EncodeGroups(s: string): (r: string)
    requires IsLatin1(s)
    ensures |r| == 4 * (|s| / 3) + (if |s| % 3 == 0 then 0 else |s| % 3 + 1)
    ensures forall i :: 0 <= i < |r| ==> IsBase64Char(r[i])
  {
    if |s| >= 3 then
      var group := EncodeTriple(s[0] as int, s[1] as int, s[2] as int);
      var rest := EncodeGroups(s[3..]);
      GroupsAfterFirst(|s|);
      var r := group + rest;
      forall i | 0 <= i < |r| ensures IsBase64Char(r[i]) {
        if i < 4 {
          assert r[i] == group[i];
        } else {
          assert r[i] == rest[i - 4];
        }
      }
      r
    else if |s| == 2 then EncodePair(s[0] as int, s[1] as int)
    else if |s| == 1 then EncodeSingle(s[0] as int)
    else []
  }

  /** Dropping three bytes drops one group and keeps the remainder. */
  lemma GroupsAfterFirst(n: nat)
    requires n >= 3
    ensures (n - 3) / 3 == n / 3 - 1 && (n - 3) % 3 == n % 3
  {
  }

  function Padding(n: nat): string {
    if n % 3 == 1 then "==" else if n % 3 == 2 then "=" else ""
  }

  /** `btoa(s)`; `None` where it throws (a character above U+00FF). */
  function Btoa(s: string): (r: Option<string>)
    ensures r.Some? <==> IsLatin1(s)
    ensures r.Some? ==> |r.value| % 4 == 0
  {
    if IsLatin1(s) then
      PaddedLength(|s|, |EncodeGroups(s)|);
      Some(EncodeGroups(s) + Padding(|s|))
    else None
  }

  /** The ASCII whitespace the forgiving decoder skips. */
  predicate IsAsciiWhitespace(c: char) {
    c == ' ' || c == '\t' || c == '\n' || c as int == 0x0C || c == '\r'
  }

  /** Removes one or two trailing `=` when the length is a multiple of four. */
  function StripPadding(s: string): string {
    if |s| % 4 == 0 && |s| >= 2 && s[|s| - 2..] == "==" then s[..|s| - 2]
    else if |s| % 4 == 0 && |s| >= 1 && s[|s| - 1] == '=' then s[..|s| - 1]
    else s
  }

  /** The bytes of a group of four sextets. */
  function DecodeQuad(i0: nat, i1: nat, i2: nat, i3: nat): string
    requires i0 < 64 && i1 < 64 && i2 < 64 && i3 < 64
  {
    [(i0 * 4 + i1 / 16) as char, ((i1 % 16) * 16 + i2 / 4) as char, ((i2 % 4) * 64 + i3) as char]
  }

  /** Bytes from base64 characters: three per group of four, two for a last
      group of three, one for a last group of two (leftover bits dropped). */
  function DecodeGroups(t: string): (r: string)
    requires |t| % 4 != 1
    requires forall i :: 0 <= i < |t| ==> IsBase64Char(t[i])
    ensures IsLatin1(r)
    ensures |r| == |t| * 3 / 4
  {
    if |t| >= 4 then
      var group := DecodeQuad(SextetValue(t[0]), SextetValue(t[1]), SextetValue(t[2]), SextetValue(t[3]));
      var rest := DecodeGroups(t[4..]);
      assert forall i :: 3 <= i < 3 + |rest| ==> (group + rest)[i] == rest[i - 3];
      group + rest
    else if |t| == 3 then
      var i0, i1, i2 := SextetValue(t[0]), SextetValue(t[1]), SextetValue(t[2]);
      [(i0 * 4 + i1 / 16) as char, ((i1 % 16) * 16 + i2 / 4) as char]
    else if |t| == 2 then
      var i0, i1 := SextetValue(t[0]), SextetValue(t[1]);
      [(i0 * 4 + i1 / 16) as char]
    else []
  }

  predicate NotAsciiWhitespace(c: char) {
    !IsAsciiWhitespace(c)
  }

  /** What the forgiving decoder works on: the text without its ASCII
      whitespace and without its padding. */
  function Unpadded(s: string): string {
    StripPadding(Strings.Keep(s, NotAsciiWhitespace))
  }

  /** `atob(s)`; `None` where it throws: a length of one more than a
      multiple of four once whitespace and padding are gone, or a character
      outside the alphabet. Otherwise every four characters give three
      bytes, and a last group of three or two characters two or one. */
  function Atob(s: string): (r: Option<string>)
    ensures r.None? <==>
      |Unpadded(s)| % 4 == 1 || exists i :: 0 <= i < |Unpadded(s)| && !IsBase64Char(Unpadded(s)[i])
    ensures r.Some? ==> IsLatin1(r.value) && |r.value| == |Unpadded(s)| * 3 / 4
  {
    var t := Unpadded(s);
    if |t| % 4 == 1 then None
    else if !(forall i :: 0 <= i < |t| ==> IsBase64Char(t[i])) then None
    else Some(DecodeGroups(t))
  }

  lemma GroupRoundTrip(a: int, b: int, c: int)
    requires 0 <= a < 0x100 && 0 <= b < 0x100 && 0 <= c < 0x100
    ensures var i0, i1, i2, i3 := a / 4, (a % 4) * 16 + b / 16, (b % 16) * 4 + c / 64, c % 64;
      && i0 * 4 + i1 / 16 == a
      && (i1 % 16) * 16 + i2 / 4 == b
      && (i2 % 4) * 64 + i3 == c
  {
    var i1, i2 := (a % 4) * 16 + b / 16, (b % 16) * 4 + c / 64;
    assert i1 / 16 == a % 4 && i1 % 16 == b / 16;
    assert i2 / 4 == b % 16 && i2 % 4 == c / 64;
  }

  /** A group of three bytes decodes back from its four characters. */
  lemma TripleRoundTrip(a: int, b: int, c: int)
    requires 0 <= a < 0x100 && 0 <= b < 0x100 && 0 <= c < 0x100
    ensures var g := EncodeTriple(a, b, c);
      DecodeQuad(SextetValue(g[0]), SextetValue(g[1]), SextetValue(g[2]), SextetValue(g[3])) == [a as char, b as char, c as char]
  {
    GroupRoundTrip(a, b, c);
  }

  /** Decoding a group of four characters followed by more. */
  lemma DecodeGroupThen(g: string, rest: string)
    requires |g| == 4 && forall i :: 0 <= i < 4 ==> IsBase64Char(g[i])
    requires |rest| % 4 != 1 && forall i :: 0 <= i < |rest| ==> IsBase64Char(rest[i])
    ensures |g + rest| % 4 != 1 && forall i :: 0 <= i < |g + rest| ==> IsBase64Char((g + rest)[i])
    ensures DecodeGroups(g + rest) ==
      DecodeQuad(SextetValue(g[0]), SextetValue(g[1]), SextetValue(g[2]), SextetValue(g[3])) + DecodeGroups(rest)
  {
    var t := g + rest;
    assert t[4..] == rest;
    assert t[0] == g[0] && t[1] == g[1] && t[2] == g[2] && t[3] == g[3];
  }

  lemma EncodeGroupsFront(s: string)
    requires IsLatin1(s) && |s| >= 3
    ensures EncodeGroups(s) == EncodeTriple(s[0] as int, s[1] as int, s[2] as int) + EncodeGroups(s[3..])
  {
  }

  lemma DecodeFront(s: string)
    requires IsLatin1(s) && |s| >= 3
    ensures var g := EncodeTriple(s[0] as int, s[1] as int, s[2] as int);
      DecodeQuad(SextetValue(g[0]), SextetValue(g[1]), SextetValue(g[2]), SextetValue(g[3])) == s[..3]
  {
    TripleRoundTrip(s[0] as int, s[1] as int, s[2] as int);
  }

  /** The first group of four characters decodes to the first three bytes. */
  lemma DecodeFirstGroup(s: string)
    requires IsLatin1(s) && |s| >= 3
    requires |EncodeGroups(s[3..])| % 4 != 1
    ensures |EncodeGroups(s)| % 4 != 1
    ensures DecodeGroups(EncodeGroups(s)) == s[..3] + DecodeGroups(EncodeGroups(s[3..]))
  {
    EncodeGroupsFront(s);
    DecodeFront(s);
    DecodeGroupThen(EncodeTriple(s[0] as int, s[1] as int, s[2] as int), EncodeGroups(s[3..]));
  }

  /** A last pair of bytes decodes back from its three characters. */
  lemma PairRoundTrip(a: int, b: int)
    requires 0 <= a < 0x100 && 0 <= b < 0x100
    ensures DecodeGroups(EncodePair(a, b)) == [a as char, b as char]
  {
    GroupRoundTrip(a, b, 0);
    var g := EncodePair(a, b);
    assert SextetValue(g[0]) == a / 4;
    assert SextetValue(g[1]) == (a % 4) * 16 + b / 16;
    assert SextetValue(g[2]) == (b % 16) * 4;
  }

  /** A last single byte decodes back from its two characters. */
  lemma SingleRoundTrip(a: int)
    requires 0 <= a < 0x100
    ensures DecodeGroups(EncodeSingle(a)) == [a as char]
  {
    GroupRoundTrip(a, 0, 0);
    var g := EncodeSingle(a);
    assert SextetValue(g[0]) == a / 4;
    assert SextetValue(g[1]) == (a % 4) * 16;
  }

  /** A last single byte or pair round-trips. */
  lemma DecodeLastGroup(s: string)
    requires IsLatin1(s) && 1 <= |s| <= 2
    ensures |EncodeGroups(s)| % 4 != 1
    ensures DecodeGroups(EncodeGroups(s)) == s
  {
    if |s| == 2 {
      assert EncodeGroups(s) == EncodePair(s[0] as int, s[1] as int);
      PairRoundTrip(s[0] as int, s[1] as int);
      assert s == [s[0], s[1]];
    } else {
      assert EncodeGroups(s) == EncodeSingle(s[0] as int);
      SingleRoundTrip(s[0] as int);
      assert s == [s[0]];
    }
  }

  lemma {:induction false} DecodeEncodeGroups(s: string)
    requires IsLatin1(s)
    requires |EncodeGroups(s)| % 4 != 1
    ensures DecodeGroups(EncodeGroups(s)) == s
    decreases |s|
  {
    if |s| >= 3 {
      EncodedLengthMod4(s[3..]);
      DecodeFirstGroup(s);
      DecodeEncodeGroups(s[3..]);
      assert s == s[..3] + s[3..];
    } else if |s| >= 1 {
      DecodeLastGroup(s);
    }
  }

  lemma FourDivides(n: int, q: int)
    requires n == 4 * q
    ensures n % 4 == 0
  {
  }

  /** No encoding leaves a single character after its groups of four. */
  lemma BodyLengthMod4(n: nat, bodyLength: nat)
    requires bodyLength == 4 * (n / 3) + (if n % 3 == 0 then 0 else n % 3 + 1)
    ensures bodyLength % 4 != 1
  {
    var k := bodyLength - 4 * (n / 3);
    assert 0 <= k < 4 && k != 1;
    FourDivides(bodyLength - k, n / 3);
  }

  lemma EncodedLengthMod4(s: string)
    requires IsLatin1(s)
    ensures |EncodeGroups(s)| % 4 != 1
  {
    BodyLengthMod4(|s|, |EncodeGroups(s)|);
  }

  /** Padding that completes a group of four is what `StripPadding` removes. */
  lemma StripPaddingOf(body: string, pad: string)
    requires pad == "" || pad == "=" || pad == "=="
    requires (|body| + |pad|) % 4 == 0
    requires body == [] || IsBase64Char(body[|body| - 1])
    requires pad == "==" ==> |body| >= 1
    ensures StripPadding(body + pad) == body
  {
    var t := body + pad;
    if pad == "==" {
      assert t[|t| - 2..] == "==";
      assert t[..|t| - 2] == body;
    } else if pad == "=" {
      assert t[|t| - 1] == '=';
      assert t[..|t| - 1] == body;
      if |t| >= 2 {
        assert t[|t| - 2] == body[|body| - 1] != '=';
      }
    } else {
      assert t == body;
      if |t| >= 1 {
        assert t[|t| - 1] != '=';
      }
    }
  }

  /** The padding completes the encoded characters to a whole number of
      groups of four. */
  lemma PaddedLength(n: nat, bodyLength: nat)
    requires bodyLength == 4 * (n / 3) + (if n % 3 == 0 then 0 else n % 3 + 1)
    ensures (bodyLength + |Padding(n)|) % 4 == 0
    ensures Padding(n) == "" || Padding(n) == "=" || Padding(n) == "=="
    ensures Padding(n) == "==" ==> bodyLength >= 1
  {
    if n % 3 == 0 {
      FourDivides(bodyLength, n / 3);
    } else {
      FourDivides(bodyLength + |Padding(n)|, n / 3 + 1);
    }
  }

  /** `StripPadding` removes exactly the padding of base64 characters of
      the length `btoa` gives for `n` bytes. */
  lemma StripPaddingOfBody(body: string, n: nat)
    requires |body| == 4 * (n / 3) + (if n % 3 == 0 then 0 else n % 3 + 1)
    requires forall i :: 0 <= i < |body| ==> IsBase64Char(body[i])
    ensures StripPadding(body + Padding(n)) == body
  {
    PaddedLength(n, |body|);
    if |body| >= 1 {
      assert IsBase64Char(body[|body| - 1]);
    }
    StripPaddingOf(body, Padding(n));
  }

  lemma StripPaddingOfEncoded(s: string)
    requires IsLatin1(s)
    ensures StripPadding(EncodeGroups(s) + Padding(|s|)) == EncodeGroups(s)
  {
    StripPaddingOfBody(EncodeGroups(s), |s|);
  }

  /** Decoding undoes encoding for every string `btoa` accepts:
      `atob(btoa(s)) == s`. */
  lemma AtobBtoa(s: string)
    requires IsLatin1(s)
    ensures Atob(Btoa(s).value) == Some(s)
  {
    var body := EncodeGroups(s);
    var encoded := body + Padding(|s|);
    assert Btoa(s).value == encoded;
    assert forall i :: 0 <= i < |encoded| ==> NotAsciiWhitespace(encoded[i]) by {
      forall i | 0 <= i < |encoded| ensures NotAsciiWhitespace(encoded[i]) {
        if i < |body| {
          assert IsBase64Char(body[i]);
        }
      }
    }
    var kept := Strings.Keep(encoded, NotAsciiWhitespace);
    assert kept == encoded;
    StripPaddingOfEncoded(s);
    EncodedLengthMod4(s);
    DecodeEncodeGroups(s);
  }
}
