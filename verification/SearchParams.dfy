/** What `new URL(href, base).searchParams.get(name)` computes, after the
    WHATWG URL Standard: the query of a URL, the
    application/x-www-form-urlencoded parser (section 5.1), its lenient
    percent-decoding (section 1.3), and the UTF-8 decoding with replacement of
    the WHATWG Encoding Standard (section 9.1.1). */
module SearchParams {
  import opened Wrappers
  import Strings
  import Uri

  type Byte = Uri.Byte

  const Replacement: char := '\U{FFFD}'

  /** Percent-decoding: `%XY` becomes the byte XY and every other character
      its UTF-8 bytes, so a `%` without two hex digits after it is kept. */
  function PercentDecode(s: string): seq<Byte>
    decreases |s|
  {
    if s == [] then []
    else if Uri.ReadByte(s).Some? then [Uri.ReadByte(s).value] + PercentDecode(s[3..])
    else Uri.Utf8(s[0]) + PercentDecode(s[1..])
  }

  /** How many continuation bytes a lead byte announces; 0 for a byte that
      cannot start a sequence (0x80 to 0xC1 and 0xF5 to 0xFF). */
  function Needed(lead: Byte): nat {
    if 0xC2 <= lead <= 0xDF then 1
    else if 0xE0 <= lead <= 0xEF then 2
    else if 0xF0 <= lead <= 0xF4 then 3
    else 0
  }

  /** The range allowed for the `i`-th continuation byte after `lead`. The
      first one is narrowed so that overlong forms, surrogates and values
      beyond U+10FFFF never decode. */
  predicate Fits(lead: Byte, i: nat, b: Byte) {
    if i == 0 && lead == 0xE0 then 0xA0 <= b <= 0xBF
    else if i == 0 && lead == 0xED then 0x80 <= b <= 0x9F
    else if i == 0 && lead == 0xF0 then 0x90 <= b <= 0xBF
    else if i == 0 && lead == 0xF4 then 0x80 <= b <= 0x8F
    else 0x80 <= b <= 0xBF
  }

  /** The number of continuation bytes of `rest`, from index `i`, that the
      decoder takes before it has `need` of them or meets one out of range. */
  function Accepted(lead: Byte, rest: seq<Byte>, i: nat, need: nat): (k: nat)
    requires i <= need && i <= |rest|
    ensures i <= k <= need && k <= |rest|
    ensures forall j :: i <= j < k ==> Fits(lead, j, rest[j])
    ensures k < need && k < |rest| ==> !Fits(lead, k, rest[k])
    decreases need - i
  {
    if i == need || i == |rest| || !Fits(lead, i, rest[i]) then i
    else Accepted(lead, rest, i + 1, need)
  }

  /** The scalar value of a complete, well-formed multi-byte sequence. */
  function Assemble(lead: Byte, cont: seq<Byte>): char
    requires 1 <= Needed(lead) && |cont| == Needed(lead)
    requires forall j :: 0 <= j < |cont| ==> Fits(lead, j, cont[j])
  {
    assert forall j :: 0 <= j < |cont| ==> 0x80 <= cont[j] < 0xC0 by {
      forall j | 0 <= j < |cont| ensures 0x80 <= cont[j] < 0xC0 {
        assert Fits(lead, j, cont[j]);
      }
    }
    assert Fits(lead, 0, cont[0]);
    if |cont| == 1 then
      ((lead as int - 0xC0) * 64 + (cont[0] as int - 0x80)) as char
    else if |cont| == 2 then
      var high := (lead as int - 0xE0) * 4096 + (cont[0] as int - 0x80) * 64;
      assert high < 0xD800 - 63 || 0xE000 <= high < 0x10000 - 63 by {
        if lead == 0xED {
          assert cont[0] <= 0x9F;
        }
      }
      (high + (cont[1] as int - 0x80)) as char
    else
      var high := (lead as int - 0xF0) * 262144 + (cont[0] as int - 0x80) * 4096;
      assert 0x10000 <= high <= 0x10FFFF - 4095 by {
        if lead == 0xF0 {
          assert cont[0] >= 0x90;
        } else if lead == 0xF4 {
          assert cont[0] <= 0x8F;
        }
      }
      (high + (cont[1] as int - 0x80) * 64 + (cont[2] as int - 0x80)) as char
  }

  /** UTF-8 decoding with replacement: each maximal ill-formed subsequence
      becomes one U+FFFD and decoding resumes at the byte that broke it. */
  function DecodeUtf8(bs: seq<Byte>): string
    decreases |bs|
  {
    if bs == [] then []
    else if bs[0] < 0x80 then [bs[0] as char] + DecodeUtf8(bs[1..])
    else
      var need := Needed(bs[0]);
      var k := Accepted(bs[0], bs[1..], 0, need);
      if need != 0 && k == need then [Assemble(bs[0], bs[1..need + 1])] + DecodeUtf8(bs[need + 1..])
      else [Replacement] + DecodeUtf8(bs[k + 1..])
  }

  function PlusToSpace(s: string): (r: string)
    ensures |r| == |s|
    ensures forall i :: 0 <= i < |s| ==> r[i] == (if s[i] == '+' then ' ' else s[i])
  {
    seq(|s|, i requires 0 <= i < |s| => if s[i] == '+' then ' ' else s[i])
  }

  /** The decoding applied to every name and value: `+` becomes a space,
      then percent-decoding, then UTF-8 decoding. */
  function FormDecode(s: string): string {
    DecodeUtf8(PercentDecode(PlusToSpace(s)))
  }

  datatype Pair = Pair(name: string, value: string)

  /** One `&`-separated piece: the name is what precedes the first `=`, the
      value what follows it (empty when there is no `=`). */
  function ParsePiece(piece: string): Pair {
    var k := Strings.FirstIndex(piece, '=');
    if k == |piece| then Pair(FormDecode(piece), "")
    else Pair(FormDecode(piece[..k]), FormDecode(piece[k + 1..]))
  }

  /** The pairs of the non-empty pieces, in order. */
  function ParsePieces(pieces: seq<string>): (r: seq<Pair>)
    ensures |r| <= |pieces|
  {
    if pieces == [] then []
    else if pieces[0] == [] then ParsePieces(pieces[1..])
    else [ParsePiece(pieces[0])] + ParsePieces(pieces[1..])
  }

  /** The application/x-www-form-urlencoded parser. */
  function ParseQuery(query: string): seq<Pair> {
    ParsePieces(Strings.Split(query, '&'))
  }

  /** The query of a URL: what follows the first `?` that precedes any `#`;
      `None` when there is no such `?`. */
  function Query(href: string): (r: Option<string>)
    ensures r.Some? ==> '#' !in r.value
  {
    var beforeFragment := Strings.Before(href, '#');
    var k := Strings.FirstIndex(beforeFragment, '?');
    if k == |beforeFragment| then None else Some(beforeFragment[k + 1..])
  }

  /** The value of the first pair with the given name. */
  function Lookup(pairs: seq<Pair>, name: string): (r: Option<string>)
    ensures r.Some? <==> exists i :: 0 <= i < |pairs| && pairs[i].name == name
    ensures r.Some? ==> exists i ::
      && 0 <= i < |pairs| && pairs[i] == Pair(name, r.value)
      && forall j :: 0 <= j < i ==> pairs[j].name != name
  {
    if pairs == [] then None
    else if pairs[0].name == name then Some(pairs[0].value)
    else
      var r := Lookup(pairs[1..], name);
      assert forall i :: 1 <= i < |pairs| ==> pairs[i] == pairs[1..][i - 1];
      r
  }

  /** `new URL(href, base).searchParams.get(name)`; `None` for `null`. */
  function Get(href: string, name: string): (r: Option<string>)
    ensures Query(href).None? ==> r.None?
    ensures Query(href).Some? ==>
      var pairs := ParseQuery(Query(href).value);
      (r.Some? <==> exists i :: 0 <= i < |pairs| && pairs[i].name == name)
  {
    match Query(href)
    case None => None
    case Some(q) => Lookup(ParseQuery(q), name)
  }

  /** The UTF-8 bytes of a whole string. */
  function Utf8Bytes(s: string): seq<Byte> {
    if s == [] then [] else Uri.Utf8(s[0]) + Utf8Bytes(s[1..])
  }

  /** A complete, well-formed sequence decodes to its scalar value and the
      decoder carries on after it. */
  lemma DecodeSequence(bs: seq<Byte>, lead: Byte, cont: seq<Byte>, rest: seq<Byte>)
    requires bs == [lead] + cont + rest
    requires 1 <= Needed(lead) && |cont| == Needed(lead)
    requires forall j :: 0 <= j < |cont| ==> Fits(lead, j, cont[j])
    ensures DecodeUtf8(bs) == [Assemble(lead, cont)] + DecodeUtf8(rest)
  {
    var need := |cont|;
    assert bs[1..] == cont + rest;
    assert forall j :: 0 <= j < need ==> bs[1..][j] == cont[j];
    assert bs[1..need + 1] == cont;
    assert bs[need + 1..] == rest;
  }

  /** `bytes` is a complete multi-byte sequence the decoder accepts, with
      the value `c`. */
  ghost predicate MultiByteOf(bytes: seq<Byte>, c: char) {
    && |bytes| > 1
    && Needed(bytes[0]) == |bytes| - 1
    && (forall j :: 0 <= j < |bytes| - 1 ==> Fits(bytes[0], j, bytes[1..][j]))
    && Assemble(bytes[0], bytes[1..]) == c
  }

  /** The bytes `encodeURIComponent` writes for one scalar value form a
      sequence the decoder accepts, with that value. */
  lemma Utf8WellFormed(c: char)
    ensures var bytes := Uri.Utf8(c);
      && (|bytes| == 1 <==> c as int < 0x80)
      && (|bytes| == 1 ==> bytes[0] as char == c)
      && (|bytes| > 1 ==> MultiByteOf(bytes, c))
  {
    var n := c as int;
    if n < 0x80 {
    } else if n < 0x800 {
      TwoBytesWellFormed(c);
    } else if n < 0x10000 {
      ThreeBytesWellFormed(c);
    } else {
      FourBytesWellFormed(c);
    }
  }

  lemma TwoBytesWellFormed(c: char)
    requires 0x80 <= c as int < 0x800
    ensures MultiByteOf(Uri.Utf8(c), c)
  {
    Uri.TwoByteDigits(c as int);
  }

  lemma ThreeBytesWellFormed(c: char)
    requires 0x800 <= c as int < 0x10000
    ensures MultiByteOf(Uri.Utf8(c), c)
  {
    Uri.ThreeByteDigits(c as int);
  }

  lemma FourBytesWellFormed(c: char)
    requires 0x10000 <= c as int
    ensures MultiByteOf(Uri.Utf8(c), c)
  {
    Uri.FourByteDigits(c as int);
  }

  /** The decoder maps the UTF-8 bytes of one scalar value back to it. */
  lemma DecodeUtf8Char(c: char, rest: seq<Byte>)
    ensures DecodeUtf8(Uri.Utf8(c) + rest) == [c] + DecodeUtf8(rest)
  {
    var bytes := Uri.Utf8(c);
    var bs := bytes + rest;
    Utf8WellFormed(c);
    if |bytes| == 1 {
      assert bs[1..] == rest;
    } else {
      DecodeSequence(bs, bytes[0], bytes[1..], rest);
    }
  }

  /** UTF-8 decoding undoes UTF-8 encoding. */
  lemma {:induction false} DecodeUtf8Bytes(s: string)
    ensures DecodeUtf8(Utf8Bytes(s)) == s
  {
    if s != [] {
      DecodeUtf8Char(s[0], Utf8Bytes(s[1..]));
      DecodeUtf8Bytes(s[1..]);
      assert [s[0]] + s[1..] == s;
    }
  }

  /** Percent-decoding reads one escaped byte off the front. */
  lemma PercentDecodeEscape(b: Byte, t: string)
    ensures PercentDecode(Uri.Escape(b) + t) == [b] + PercentDecode(t)
  {
    var s := Uri.Escape(b) + t;
    Uri.ReadEscape(b, t);
    assert s[3..] == t;
  }

  lemma {:induction false} PercentDecodeEscapes(bytes: seq<Byte>, rest: string)
    ensures PercentDecode(Uri.EscapeAll(bytes) + rest) == bytes + PercentDecode(rest)
  {
    if bytes != [] {
      var tail := Uri.EscapeAll(bytes[1..]) + rest;
      assert Uri.EscapeAll(bytes) + rest == Uri.Escape(bytes[0]) + tail;
      PercentDecodeEscape(bytes[0], tail);
      PercentDecodeEscapes(bytes[1..], rest);
      ConsAppend(bytes, PercentDecode(rest));
    } else {
      assert Uri.EscapeAll(bytes) + rest == rest;
    }
  }

  lemma ConsAppend<T>(xs: seq<T>, ys: seq<T>)
    requires xs != []
    ensures [xs[0]] + (xs[1..] + ys) == xs + ys
  {
  }

  /** Percent-decoding the output of `encodeURIComponent` gives back the
      UTF-8 bytes it encoded. */
  lemma {:induction false} PercentDecodeEncoded(s: string)
    ensures PercentDecode(Uri.EncodeURIComponent(s)) == Utf8Bytes(s)
  {
    if s != [] {
      var rest := Uri.EncodeURIComponent(s[1..]);
      PercentDecodeEncoded(s[1..]);
      if Uri.IsUnescaped(s[0]) {
        var t := [s[0]] + rest;
        assert t[1..] == rest;
      } else {
        PercentDecodeEscapes(Uri.Utf8(s[0]), rest);
      }
    }
  }

  /** Form-decoding undoes `encodeURIComponent`, which never writes a `+`. */
  lemma FormDecodeEncoded(s: string)
    ensures FormDecode(Uri.EncodeURIComponent(s)) == s
  {
    var e := Uri.EncodeURIComponent(s);
    assert PlusToSpace(e) == e;
    PercentDecodeEncoded(s);
    DecodeUtf8Bytes(s);
  }

  /** `encodeURIComponent` leaves a string of unreserved characters as it is. */
  lemma {:induction false} EncodeUnescaped(s: string)
    requires forall i :: 0 <= i < |s| ==> Uri.IsUnescaped(s[i])
    ensures Uri.EncodeURIComponent(s) == s
  {
    if s != [] {
      EncodeUnescaped(s[1..]);
      assert [s[0]] + s[1..] == s;
    }
  }
}
