/** The DuckDuckGo search tool: unwrapping redirect links, turning markup
    fragments into display text, recognising anti-bot pages, extracting
    de-duplicated results from the html and lite result pages, and shaping
    the tool's answer with the fallback from the html endpoint to the lite
    one. The regular-expression scans of a page are given as the sequence of
    their captured groups, and each fetch as its outcome. */
module WebSearch {
  import opened Wrappers
  import Strings
  import Uri
  import SearchParams

  datatype SearchResult = SearchResult(title: string, url: string, snippet: string)

  /** One match of the html page's pattern: the link's href, the link's
      inner markup and the following snippet's inner markup. */
  datatype PairMatch = PairMatch(href: string, titleHtml: string, snippetHtml: string)

  /** One match of the lite page's link pattern: href and inner markup. */
  datatype LinkMatch = LinkMatch(href: string, titleHtml: string)

  datatype Link = Link(url: string, title: string)

  const RedirectPrefix := "/l/?uddg="
  const MaxExtracted := 15
  const DefaultMaxResults := 5
  const TimeoutMessage := "Search timed out after 15 seconds"
  const BlockedMessage := "Search blocked by DuckDuckGo anti-bot measures"
  const NoResultsMessage := "No results found for this query"

  // ---------------------------------------------------------------------
  // Links

  /** Links to DuckDuckGo's own pages, which are not results. */
  predicate IsInternal(href: string) {
    Strings.StartsWith(href, "/") ||
    Strings.Contains(href, "duckduckgo.com/y.js") ||
    Strings.Contains(href, "duckduckgo-help-pages")
  }

  /** The decoded `uddg` query parameter, when it is present, non-empty
      and `decodeURIComponent` accepts it. */
  function RedirectTarget(href: string): Option<string> {
    match SearchParams.Get(href, "uddg")
    case Some(v) => if v != "" then Uri.DecodeURIComponent(v) else None
    case None => None
  }

  /** `cleanUrl`: the destination of a redirect link, `""` for an internal
      link, the href itself otherwise. An empty href cleans to `""`; an
      href without `uddg=` is dropped when internal and kept as it is
      otherwise. */
  function CleanUrl(href: string): (r: string)
    ensures href == "" ==> r == ""
    ensures !Strings.Contains(href, "uddg=") ==> r == (if IsInternal(href) then "" else href)
  {
    if href == "" then ""
    else if Strings.Contains(href, "uddg=") && RedirectTarget(href).Some? then
      RedirectTarget(href).value
    else if Strings.StartsWith(href, RedirectPrefix) then
      assert Strings.OccursAt(href, "uddg=", 4) by {
        assert href[4..9] == RedirectPrefix[4..9];
      }
      var encoded := Strings.Before(Strings.ReplaceFirst(href, RedirectPrefix, ""), '&');
      Uri.DecodeURIComponent(encoded).GetOr(href)
    else if IsInternal(href) then ""
    else href
  }

  /** The query of a redirect link is everything after its `?`. */
  lemma RedirectQuery(e: string)
    requires '#' !in e
    ensures SearchParams.Query(RedirectPrefix + e) == Some("uddg=" + e)
  {
    var href := RedirectPrefix + e;
    assert forall i :: 0 <= i < |href| ==> href[i] != '#' by {
      forall i | 0 <= i < |href| ensures href[i] != '#' {
        if i >= 9 {
          assert href[i] == e[i - 9];
        }
      }
    }
    assert Strings.Before(href, '#') == href;
    assert href[3] == '?' && href[..3] == "/l/";
    assert href[4..] == "uddg=" + e;
  }

  /** A query made of one `uddg` pair has that pair only. */
  lemma RedirectPairs(e: string)
    requires '&' !in e
    ensures SearchParams.ParseQuery("uddg=" + e) == [SearchParams.Pair(SearchParams.FormDecode("uddg"), SearchParams.FormDecode(e))]
  {
    var query := "uddg=" + e;
    assert forall i :: 0 <= i < |query| ==> query[i] != '&' by {
      forall i | 0 <= i < |query| ensures query[i] != '&' {
        if i >= 5 {
          assert query[i] == e[i - 5];
        }
      }
    }
    assert Strings.Split(query, '&') == [query];
    assert query[4] == '=' && query[..4] == "uddg";
    assert Strings.FirstIndex(query, '=') == 4;
    assert query[5..] == e;
  }

  lemma ParameterName()
    ensures SearchParams.FormDecode("uddg") == "uddg"
  {
    var name := "uddg";
    forall i | 0 <= i < |name| ensures Uri.IsUnescaped(name[i]) {
      assert 'a' <= name[i] <= 'z';
    }
    SearchParams.EncodeUnescaped(name);
    SearchParams.FormDecodeEncoded(name);
  }

  /** The `uddg` parameter of a redirect link built with
      `encodeURIComponent` is the encoded string. */
  lemma RedirectParameter(u: string)
    ensures SearchParams.Get(RedirectPrefix + Uri.EncodeURIComponent(u), "uddg") == Some(u)
  {
    var e := Uri.EncodeURIComponent(u);
    forall i | 0 <= i < |e| ensures e[i] != '#' && e[i] != '&' {
      var c := e[i];
      assert Uri.IsUnescaped(c) || c == '%' || Uri.IsHexDigit(c);
    }
    RedirectQuery(e);
    RedirectPairs(e);
    ParameterName();
    SearchParams.FormDecodeEncoded(u);
  }

  /** A redirect link carrying the `encodeURIComponent` of a non-empty
      destination unwraps to that destination decoded once more when
      `decodeURIComponent` accepts it (the query parameter is decoded
      twice), and to the destination itself otherwise. */
  lemma CleanUrlUnwrapsRedirect(u: string)
    requires u != []
    ensures CleanUrl(RedirectPrefix + Uri.EncodeURIComponent(u)) == Uri.DecodeURIComponent(u).GetOr(u)
  {
    var e := Uri.EncodeURIComponent(u);
    var href := RedirectPrefix + e;
    RedirectNamesParameter(e);
    RedirectParameter(u);
    match Uri.DecodeURIComponent(u)
    case Some(d) =>
      CleanUrlFollowsTarget(href, u, d);
    case None =>
      assert RedirectTarget(href).None?;
      CleanUrlUndecodable(u);
  }

  /** Where the twice-decoded parameter is refused, the `/l/?uddg=` branch
      decodes the text after the prefix once. */
  lemma CleanUrlUndecodable(u: string)
    requires u != [] && Uri.DecodeURIComponent(u).None?
    requires RedirectTarget(RedirectPrefix + Uri.EncodeURIComponent(u)).None?
    ensures CleanUrl(RedirectPrefix + Uri.EncodeURIComponent(u)) == u
  {
    var e := Uri.EncodeURIComponent(u);
    var href := RedirectPrefix + e;
    assert Strings.StartsWith(href, RedirectPrefix) by {
      assert href[..9] == RedirectPrefix;
    }
    var stripped := Strings.ReplaceFirst(href, RedirectPrefix, "");
    assert stripped == e by {
      assert href[9..] == e;
    }
    var encoded := BeforeAmpersand(u);
    assert Uri.DecodeURIComponent(encoded) == Some(u) by {
      Uri.DecodeEncode(u);
    }
    CleanUrlPrefixBranch(href);
  }

  /** The text of an encoding up to its first `&` is all of it. */
  lemma BeforeAmpersand(u: string) returns (b: string)
    ensures b == Strings.Before(Uri.EncodeURIComponent(u), '&') == Uri.EncodeURIComponent(u)
  {
    var e := Uri.EncodeURIComponent(u);
    NoAmpersandInEncoding(u);
    b := Strings.Before(e, '&');
    assert |b| == |e| && e[..|b|] == b;
  }

  /** The `/l/?uddg=` branch of `cleanUrl`. */
  lemma CleanUrlPrefixBranch(href: string)
    requires href != "" && !(Strings.Contains(href, "uddg=") && RedirectTarget(href).Some?)
    requires Strings.StartsWith(href, RedirectPrefix)
    ensures CleanUrl(href) ==
      Uri.DecodeURIComponent(Strings.Before(Strings.ReplaceFirst(href, RedirectPrefix, ""), '&')).GetOr(href)
  {
  }

  lemma NoAmpersandInEncoding(u: string)
    ensures forall i :: 0 <= i < |Uri.EncodeURIComponent(u)| ==> Uri.EncodeURIComponent(u)[i] != '&'
  {
    var e := Uri.EncodeURIComponent(u);
    forall i | 0 <= i < |e| ensures e[i] != '&' {
      var c := e[i];
      assert Uri.IsUnescaped(c) || c == '%' || Uri.IsHexDigit(c);
    }
  }

  /** `decodeURIComponent` runs on the value `searchParams.get` already
      decoded: a destination whose own text holds the escape `%20` comes
      back with a space there. */
  lemma CleanUrlDecodesTwice()
    ensures CleanUrl(RedirectPrefix + Uri.EncodeURIComponent("a%20b")) == "a b"
  {
    var u := "a%20b";
    var t := u[1..];
    assert t == "%20b" && t[3..] == "b" && u[..1] == "a";
    assert Uri.DecodeURIComponent("b") == Some("b");
    assert Uri.ReadByte(t) == Some(32) by {
      assert t[0] == '%' && t[1] == '2' && t[2] == '0';
      assert Uri.IsHexDigit('2') && Uri.IsHexDigit('0');
      assert Uri.HexValue('2') == 2 && Uri.HexValue('0') == 0;
    }
    assert Uri.SequenceLength(32) == 1 && 32 as char == ' ';
    assert t[0] == '%' && t != [];
    assert Uri.DecodeURIComponent(t) == Uri.Prepend(' ', Uri.DecodeURIComponent(t[3..]));
    assert [' '] + "b" == " b" && ['a'] + " b" == "a b";
    assert Uri.DecodeURIComponent(t) == Some(" b");
    assert u[0] != '%' && u != [];
    assert Uri.DecodeURIComponent(u) == Uri.Prepend('a', Uri.DecodeURIComponent(t));
    assert Uri.DecodeURIComponent(u) == Some("a b");
    CleanUrlUnwrapsRedirect(u);
  }

  lemma RedirectNamesParameter(e: string)
    ensures Strings.Contains(RedirectPrefix + e, "uddg=")
  {
    var href := RedirectPrefix + e;
    assert href[4..9] == "uddg=";
    assert Strings.OccursAt(href, "uddg=", 4);
  }

  /** An href with a non-empty `uddg` parameter that `decodeURIComponent`
      accepts cleans to the decoded parameter. */
  lemma CleanUrlFollowsTarget(href: string, v: string, d: string)
    requires Strings.Contains(href, "uddg=") && SearchParams.Get(href, "uddg") == Some(v)
    requires v != [] && Uri.DecodeURIComponent(v) == Some(d)
    ensures CleanUrl(href) == d
  {
    assert RedirectTarget(href) == Some(d);
  }

  // ---------------------------------------------------------------------
  // Text

  /** An `&…;` run the pattern `/&[^;]+;/` matches: an `&`, at least one
      character, and the first `;` after them. */
  ghost predicate EntityAt(s: string, i: int, j: int) {
    0 <= i && i + 2 <= j < |s| && s[i] == '&' && s[j] == ';' &&
    forall k :: i < k < j ==> s[k] != ';'
  }

  ghost predicate NoEntity(s: string) {
    forall i, j :: !EntityAt(s, i, j)
  }

  /** Putting one character in front of entity-free text creates no entity
      unless it is an `&` with a `;` later and not right after it. */
  lemma NoEntityCons(c: char, rest: string)
    requires NoEntity(rest)
    requires c == '&' && rest != [] ==> rest[0] == ';' || forall k :: 0 <= k < |rest| ==> rest[k] != ';'
    ensures NoEntity([c] + rest)
  {
    var r := [c] + rest;
    forall a, b ensures !EntityAt(r, a, b) {
      if a == 0 && c == '&' && 2 <= b < |r| {
        if rest[0] == ';' {
          assert r[1] == ';';
        } else {
          assert r[b] == rest[b - 1];
        }
      } else if a > 0 && a + 2 <= b < |r| {
        assert forall k :: a - 1 < k < b - 1 ==> rest[k] == r[k + 1];
        assert !EntityAt(rest, a - 1, b - 1);
      }
    }
  }

  /** `s.replace(/&[^;]+;/g, " ")`. */
  function ReplaceEntities(s: string): (r: string)
    ensures NoEntity(r)
    ensures s != [] && s[0] != '&' ==> r != [] && r[0] == s[0]
    ensures (forall k :: 0 <= k < |s| ==> s[k] != ';') ==> forall k :: 0 <= k < |r| ==> r[k] != ';'
    ensures (forall k :: 0 <= k < |s| ==> s[k] != '&') ==> r == s
    decreases |s|
  {
    if s == [] then []
    else
      var j := if s[0] == '&' then Strings.FirstIndex(s[1..], ';') else 0;
      if s[0] == '&' && 0 < j < |s| - 1 then
        var rest := ReplaceEntities(s[j + 2..]);
        NoEntityCons(' ', rest);
        " " + rest
      else
        var rest := ReplaceEntities(s[1..]);
        assert s[0] == '&' && |s| > 1 && j == 0 ==> s[1..][0] == ';';
        NoEntityCons(s[0], rest);
        assert s[0] != '&' ==> [s[0]] + s[1..] == s;
        [s[0]] + rest
  }

  /** Text up to the first `&`, then an entity, then more text: the text
      is kept, the entity becomes one space, and the rest is scanned on. */
  lemma ReplaceEntitiesAt(a: string, x: string, b: string)
    requires forall k :: 0 <= k < |a| ==> a[k] != '&'
    requires x != [] && forall k :: 0 <= k < |x| ==> x[k] != ';'
    ensures ReplaceEntities(a + "&" + x + ";" + b) == a + " " + ReplaceEntities(b)
  {
    ReplaceEntitiesAfter(a, "&" + x + ";" + b);
    ReplaceEntitiesFirst(x, b);
    Strings.Regroup(a, "&", x, ";", b);
    Strings.Regroup(a, " ", ReplaceEntities(b), [], []);
  }

  /** Text without `&` is kept in front of what follows it. */
  lemma {:induction false} ReplaceEntitiesAfter(a: string, t: string)
    requires forall k :: 0 <= k < |a| ==> a[k] != '&'
    ensures ReplaceEntities(a + t) == a + ReplaceEntities(t)
    decreases |a|
  {
    if a != [] {
      Strings.ConsParts(a, t, ReplaceEntities(t));
      ReplaceEntitiesOfOther(a + t);
      ReplaceEntitiesAfter(a[1..], t);
    } else {
      assert a + t == t;
    }
  }

  /** An entity at the start becomes one space. */
  lemma ReplaceEntitiesFirst(x: string, b: string)
    requires x != [] && forall k :: 0 <= k < |x| ==> x[k] != ';'
    ensures ReplaceEntities("&" + x + ";" + b) == " " + ReplaceEntities(b)
  {
    var s := "&" + x + ";" + b;
    var t := s[1..];
    assert t == x + ";" + b;
    assert Strings.FirstIndex(t, ';') == |x| by {
      assert t[|x|] == ';';
      assert forall k :: 0 <= k < |x| ==> t[k] == x[k];
    }
    assert s[|x| + 2..] == b;
    ReplaceEntitiesOfEntity(s);
  }

  lemma ReplaceEntitiesOfEntity(s: string)
    requires s != [] && s[0] == '&'
    requires 0 < Strings.FirstIndex(s[1..], ';') < |s| - 1
    ensures ReplaceEntities(s) == " " + ReplaceEntities(s[Strings.FirstIndex(s[1..], ';') + 2..])
  {
  }

  lemma ReplaceEntitiesOfOther(s: string)
    requires s != [] && s[0] != '&'
    ensures ReplaceEntities(s) == [s[0]] + ReplaceEntities(s[1..])
  {
  }

  /** `decodeHtmlEntities`: the named and numeric entities in source order,
      then every other entity to a space. */
  function DecodeHtmlEntities(text: string): (r: string)
    ensures NoEntity(r)
  {
    var t := Strings.ReplaceAll(text, "&amp;", "&");
    var t := Strings.ReplaceAll(t, "&lt;", "<");
    var t := Strings.ReplaceAll(t, "&gt;", ">");
    var t := Strings.ReplaceAll(t, "&quot;", "\"");
    var t := Strings.ReplaceAll(t, "&#39;", "'");
    var t := Strings.ReplaceAll(t, "&nbsp;", " ");
    var t := Strings.ReplaceAll(t, "&#x27;", "'");
    var t := Strings.ReplaceAll(t, "&#x2F;", "/");
    ReplaceEntities(t)
  }

  /** An entity other than `&n;` passes through the replacement of `&n;`. */
  lemma OtherEntityKept(a: string, x: string, b: string, n: string, pat: string, rep: string)
    requires forall k :: 0 <= k < |a| ==> a[k] != '&'
    requires forall k :: 0 <= k < |x| ==> x[k] != '&' && x[k] != ';'
    requires forall k :: 0 <= k < |b| ==> b[k] != '&'
    requires forall k :: 0 <= k < |n| ==> n[k] != ';'
    requires x != n && pat == "&" + n + ";"
    ensures var s := a + "&" + x + ";" + b;
      Strings.ReplaceAll(s, pat, rep) == s
  {
    var e := "&" + x + ";" + b;
    Strings.ReplaceAllAfter(a, e, pat, rep);
    EntityKept(x, b, n, rep);
    Strings.Regroup(a, "&", x, ";", b);
  }

  lemma EntityKept(x: string, b: string, n: string, rep: string)
    requires forall k :: 0 <= k < |x| ==> x[k] != '&' && x[k] != ';'
    requires forall k :: 0 <= k < |b| ==> b[k] != '&'
    requires forall k :: 0 <= k < |n| ==> n[k] != ';'
    requires x != n
    ensures var e := "&" + x + ";" + b;
      Strings.ReplaceAll(e, "&" + n + ";", rep) == e
  {
    var pat := "&" + n + ";";
    var e := "&" + x + ";" + b;
    var t := x + ";" + b;
    assert forall k :: 0 <= k < |t| ==> t[k] != '&' by {
      forall k | 0 <= k < |t| ensures t[k] != '&' {
        if k < |x| { assert t[k] == x[k]; }
        else if k > |x| { assert t[k] == b[k - |x| - 1]; }
      }
    }
    EntityPrefixName(x, b, n);
    assert e[1..] == t && [e[0]] + t == e;
  }

  /** `&x;…` starts with `&n;` only when `x` is `n`. */
  lemma EntityPrefixName(x: string, b: string, n: string)
    requires forall k :: 0 <= k < |x| ==> x[k] != ';'
    requires forall k :: 0 <= k < |n| ==> n[k] != ';'
    ensures var e := "&" + x + ";" + b;
      |e| >= |n| + 2 && e[..|n| + 2] == "&" + n + ";" ==> x == n
  {
    var pat := "&" + n + ";";
    var e := "&" + x + ";" + b;
    var t := x + ";" + b;
    assert e[1..] == t;
    assert Strings.FirstIndex(t, ';') == |x| by {
      assert t[|x|] == ';';
      assert forall k :: 0 <= k < |x| ==> t[k] == x[k];
    }
    if |e| >= |pat| && e[..|pat|] == pat {
      assert t[|n|] == pat[|n| + 1];
      assert forall k :: 0 <= k < |n| ==> t[k] == pat[k + 1] == n[k];
      assert Strings.FirstIndex(t, ';') == |n|;
      assert x == t[..|x|] == n;
    }
  }

  /** An entity that is none of the named ones becomes one space in text
      with no other `&`. */
  lemma UnknownEntity(a: string, x: string, b: string)
    requires forall k :: 0 <= k < |a| ==> a[k] != '&'
    requires x != [] && forall k :: 0 <= k < |x| ==> x[k] != '&' && x[k] != ';'
    requires forall k :: 0 <= k < |b| ==> b[k] != '&'
    requires x !in {"amp", "lt", "gt", "quot", "#39", "nbsp", "#x27", "#x2F"}
    ensures DecodeHtmlEntities(a + "&" + x + ";" + b) == a + " " + b
  {
    var s := a + "&" + x + ";" + b;
    EarlierEntitiesKept(a, x, b);
    LaterEntitiesKept(a, x, b);
    NamedEntitiesKept(s);
    ReplaceEntitiesAt(a, x, b);
  }

  /** The first four named replacements leave an unknown entity alone. */
  lemma EarlierEntitiesKept(a: string, x: string, b: string)
    requires forall k :: 0 <= k < |a| ==> a[k] != '&'
    requires x != [] && forall k :: 0 <= k < |x| ==> x[k] != '&' && x[k] != ';'
    requires forall k :: 0 <= k < |b| ==> b[k] != '&'
    requires x !in {"amp", "lt", "gt", "quot", "#39", "nbsp", "#x27", "#x2F"}
    ensures var s := a + "&" + x + ";" + b;
      && Strings.ReplaceAll(s, "&amp;", "&") == s
      && Strings.ReplaceAll(s, "&lt;", "<") == s
      && Strings.ReplaceAll(s, "&gt;", ">") == s
      && Strings.ReplaceAll(s, "&quot;", "\"") == s
  {
    OtherEntityKept(a, x, b, "amp", "&amp;", "&");
    OtherEntityKept(a, x, b, "lt", "&lt;", "<");
    OtherEntityKept(a, x, b, "gt", "&gt;", ">");
    OtherEntityKept(a, x, b, "quot", "&quot;", "\"");
  }

  /** The last four named replacements leave an unknown entity alone. */
  lemma LaterEntitiesKept(a: string, x: string, b: string)
    requires forall k :: 0 <= k < |a| ==> a[k] != '&'
    requires x != [] && forall k :: 0 <= k < |x| ==> x[k] != '&' && x[k] != ';'
    requires forall k :: 0 <= k < |b| ==> b[k] != '&'
    requires x !in {"amp", "lt", "gt", "quot", "#39", "nbsp", "#x27", "#x2F"}
    ensures var s := a + "&" + x + ";" + b;
      && Strings.ReplaceAll(s, "&#39;", "'") == s
      && Strings.ReplaceAll(s, "&nbsp;", " ") == s
      && Strings.ReplaceAll(s, "&#x27;", "'") == s
      && Strings.ReplaceAll(s, "&#x2F;", "/") == s
  {
    OtherEntityKept(a, x, b, "#39", "&#39;", "'");
    OtherEntityKept(a, x, b, "nbsp", "&nbsp;", " ");
    OtherEntityKept(a, x, b, "#x27", "&#x27;", "'");
    OtherEntityKept(a, x, b, "#x2F", "&#x2F;", "/");
  }

  /** Text that none of the eight named replacements changes goes straight
      to the numeric-entity pass. */
  lemma NamedEntitiesKept(s: string)
    requires Strings.ReplaceAll(s, "&amp;", "&") == s
    requires Strings.ReplaceAll(s, "&lt;", "<") == s
    requires Strings.ReplaceAll(s, "&gt;", ">") == s
    requires Strings.ReplaceAll(s, "&quot;", "\"") == s
    requires Strings.ReplaceAll(s, "&#39;", "'") == s
    requires Strings.ReplaceAll(s, "&nbsp;", " ") == s
    requires Strings.ReplaceAll(s, "&#x27;", "'") == s
    requires Strings.ReplaceAll(s, "&#x2F;", "/") == s
    ensures DecodeHtmlEntities(s) == ReplaceEntities(s)
  {
  }

  /** Text without an `&` has no entity and is left as it is. */
  lemma DecodeWithoutAmpersand(text: string)
    requires forall i :: 0 <= i < |text| ==> text[i] != '&'
    ensures DecodeHtmlEntities(text) == text
  {
  }

  /** `&amp;` is decoded first, so a double-escaped `&amp;lt;` becomes `<`. */
  lemma DecodeDoubleEscaped()
    ensures DecodeHtmlEntities("&amp;lt;") == "<"
  {
    var s := "&amp;lt;";
    assert s[..5] == "&amp;" && s[5..] == "lt;";
    assert Strings.ReplaceAll("lt;", "&amp;", "&") == "lt;";
    assert Strings.ReplaceAll(s, "&amp;", "&") == "&lt;";
    var t := "&lt;";
    assert t[..4] == "&lt;" && t[4..] == "";
    assert Strings.ReplaceAll(t, "&lt;", "<") == "<";
  }

  /** A `<` with a `>` somewhere after it. */
  ghost predicate TagAt(s: string, i: int, j: int) {
    0 <= i < j < |s| && s[i] == '<' && s[j] == '>'
  }

  /** `s.replace(/<[^>]*>/g, " ")`: every tag becomes a space, so no `<`
      is followed by a `>` any more. */
  function StripTags(s: string): (r: string)
    ensures forall i, j :: !TagAt(r, i, j)
    ensures s != [] && s[0] != '<' ==> r != [] && r[0] == s[0]
    ensures (forall k :: 0 <= k < |s| ==> s[k] != '>') ==> forall k :: 0 <= k < |r| ==> r[k] != '>'
    decreases |s|
  {
    if s == [] then []
    else
      var j := if s[0] == '<' then Strings.FirstIndex(s[1..], '>') else 0;
      if s[0] == '<' && j < |s| - 1 then
        var rest := StripTags(s[j + 2..]);
        var r := " " + rest;
        assert forall a, b :: TagAt(r, a, b) ==> TagAt(rest, a - 1, b - 1);
        r
      else
        var rest := StripTags(s[1..]);
        var r := [s[0]] + rest;
        assert forall k :: 1 <= k < |r| ==> r[k] == rest[k - 1];
        assert forall a, b :: a >= 1 && TagAt(r, a, b) ==> TagAt(rest, a - 1, b - 1);
        assert s[0] != '<' ==> [s[0]] + s[1..] == s;
        r
  }

  /** Text up to the first `<`, then a tag, then more text: the text is
      kept, the tag becomes one space, and the rest is scanned on. */
  lemma StripTagsAt(a: string, x: string, b: string)
    requires forall k :: 0 <= k < |a| ==> a[k] != '<'
    requires forall k :: 0 <= k < |x| ==> x[k] != '>'
    ensures StripTags(a + "<" + x + ">" + b) == a + " " + StripTags(b)
  {
    StripTagsAfter(a, "<" + x + ">" + b);
    StripTagsFirst(x, b);
    Strings.Regroup(a, "<", x, ">", b);
    Strings.Regroup(a, " ", StripTags(b), [], []);
  }

  /** Text without `<` is kept in front of what follows it. */
  lemma {:induction false} StripTagsAfter(a: string, t: string)
    requires forall k :: 0 <= k < |a| ==> a[k] != '<'
    ensures StripTags(a + t) == a + StripTags(t)
    decreases |a|
  {
    if a != [] {
      Strings.ConsParts(a, t, StripTags(t));
      StripTagsOfOther(a + t);
      StripTagsAfter(a[1..], t);
    } else {
      assert a + t == t;
    }
  }

  /** A tag at the start becomes one space. */
  lemma StripTagsFirst(x: string, b: string)
    requires forall k :: 0 <= k < |x| ==> x[k] != '>'
    ensures StripTags("<" + x + ">" + b) == " " + StripTags(b)
  {
    var s := "<" + x + ">" + b;
    var t := s[1..];
    assert t == x + ">" + b;
    assert Strings.FirstIndex(t, '>') == |x| by {
      assert t[|x|] == '>';
      assert forall k :: 0 <= k < |x| ==> t[k] == x[k];
    }
    assert s[|x| + 2..] == b;
    StripTagsOfTag(s);
  }

  lemma {:induction false} StripTagsOfTag(s: string)
    requires s != [] && s[0] == '<'
    requires Strings.FirstIndex(s[1..], '>') < |s| - 1
    ensures StripTags(s) == " " + StripTags(s[Strings.FirstIndex(s[1..], '>') + 2..])
  {
  }

  lemma StripTagsOfOther(s: string)
    requires s != [] && s[0] != '<'
    ensures StripTags(s) == [s[0]] + StripTags(s[1..])
  {
  }

  /** `normalizeText`: tags to spaces, entities decoded, every whitespace
      run to one space, then trimmed; the result is empty for empty input
      and has no whitespace at either end. */
  function NormalizeText(text: string): (r: string)
    ensures text == "" ==> r == ""
    ensures r == [] || (!Strings.IsSpace(r[0]) && !Strings.IsSpace(r[|r| - 1]))
  {
    if text == "" then ""
    else Strings.Trim(Strings.CollapseRuns(DecodeHtmlEntities(StripTags(text)), Strings.IsSpace, ' '))
  }

  /** Normalised text never has two whitespace characters in a row, and
      no whitespace but plain spaces. */
  lemma NormalizeTextShape(text: string)
    ensures var r := NormalizeText(text);
      && Strings.NoAdjacent(r, Strings.IsSpace)
      && (forall i :: 0 <= i < |r| && Strings.IsSpace(r[i]) ==> r[i] == ' ')
  {
    if text != "" {
      Strings.CollapseThenTrim(DecodeHtmlEntities(StripTags(text)));
    }
  }

  /** Normalised text is not free of markup: an escaped `<` comes back as
      one. */
  lemma NormalizeKeepsEscapedBracket()
    ensures NormalizeText("&lt;") == "<"
  {
    var s := "&lt;";
    assert forall k :: 0 <= k < |s| ==> s[k] != '<';
    StripTagsWithoutBrackets(s);
    assert s[..4] == "&lt;" && s[4..] == "";
    assert Strings.ReplaceAll(s, "&lt;", "<") == "<";
    var v := "<";
    assert Strings.CollapseRuns(v, Strings.IsSpace, ' ') == v by {
      assert v[1..] == "";
    }
  }

  lemma {:induction false} StripTagsWithoutBrackets(s: string)
    requires forall k :: 0 <= k < |s| ==> s[k] != '<'
    ensures StripTags(s) == s
  {
    if s != [] {
      StripTagsWithoutBrackets(s[1..]);
      assert [s[0]] + s[1..] == s;
    }
  }

  /** `isBlocked`: the page carries one of the anti-bot markers. */
  function IsBlocked(html: string): (r: bool)
    ensures r <==> ((exists i :: Strings.OccursAt(html, "anomaly-modal__modal", i))
                    || (exists i :: Strings.OccursAt(html, "challenge-form", i))
                    || (exists i :: Strings.OccursAt(html, "detected unusual traffic", i)))
  {
    Strings.Contains(html, "anomaly-modal__modal") ||
    Strings.Contains(html, "challenge-form") ||
    Strings.Contains(html, "detected unusual traffic")
  }

  // ---------------------------------------------------------------------
  // Extraction

  /** The urls of a result list. */
  function Urls(rs: seq<SearchResult>): set<string> {
    set k | 0 <= k < |rs| :: rs[k].url
  }

  lemma UrlsAppend(rs: seq<SearchResult>, x: SearchResult)
    ensures Urls(rs + [x]) == Urls(rs) + {x.url}
  {
    var all := rs + [x];
    assert all[|rs|] == x;
    forall u | u in Urls(rs) ensures u in Urls(all) {
      var k :| 0 <= k < |rs| && rs[k].url == u;
      assert all[k] == rs[k];
    }
  }

  /** A list is its front and its last result. */
  lemma UrlsOfFront(rs: seq<SearchResult>)
    requires rs != []
    ensures Urls(rs) == Urls(rs[..|rs| - 1]) + {rs[|rs| - 1].url}
  {
    assert rs[..|rs| - 1] + [rs[|rs| - 1]] == rs;
    UrlsAppend(rs[..|rs| - 1], rs[|rs| - 1]);
  }

  /** The index of the first result with the given url. */
  function FirstWithUrl(rs: seq<SearchResult>, url: string): (i: nat)
    requires url in Urls(rs)
    ensures i < |rs| && rs[i].url == url
    decreases |rs|
  {
    var front := rs[..|rs| - 1];
    UrlsOfFront(rs);
    if url in Urls(front) then FirstWithUrl(front, url) else |rs| - 1
  }

  /** No result before the one found has the url. */
  lemma {:induction false} FirstWithUrlIsFirst(rs: seq<SearchResult>, url: string, j: nat)
    requires url in Urls(rs) && j < FirstWithUrl(rs, url)
    ensures rs[j].url != url
    decreases |rs|
  {
    var front := rs[..|rs| - 1];
    UrlsOfFront(rs);
    if url in Urls(front) {
      FirstWithUrlIsFirst(front, url, j);
    } else {
      assert front[j].url in Urls(front);
    }
  }

  /** The `seenUrls` filter: a result is kept when no earlier result had
      its url. */
  function Dedup(rs: seq<SearchResult>): (r: seq<SearchResult>)
    ensures |r| <= |rs|
    decreases |rs|
  {
    if rs == [] then []
    else
      var front := rs[..|rs| - 1];
      var x := rs[|rs| - 1];
      var d := Dedup(front);
      if x.url in Urls(d) then d else d + [x]
  }

  /** De-duplication loses no url. */
  lemma {:induction false} DedupUrls(rs: seq<SearchResult>)
    ensures Urls(Dedup(rs)) == Urls(rs)
    decreases |rs|
  {
    if rs != [] {
      var front := rs[..|rs| - 1];
      var x := rs[|rs| - 1];
      DedupUrls(front);
      UrlsOfFront(rs);
      UrlsAppend(Dedup(front), x);
    }
  }

  /** De-duplicating one more result adds it exactly when its url is new. */
  lemma DedupStep(rs: seq<SearchResult>, x: SearchResult)
    ensures Dedup(rs + [x]) == if x.url in Urls(Dedup(rs)) then Dedup(rs) else Dedup(rs) + [x]
  {
    assert (rs + [x])[..|rs|] == rs;
  }

  /** The first result of every url in a list is the one of its front,
      except for a url only the last result has. */
  lemma FirstWithUrlOfFront(rs: seq<SearchResult>, u: string)
    requires rs != [] && u in Urls(rs[..|rs| - 1])
    ensures u in Urls(rs) && FirstWithUrl(rs, u) == FirstWithUrl(rs[..|rs| - 1], u)
    ensures rs[FirstWithUrl(rs, u)] == rs[..|rs| - 1][FirstWithUrl(rs, u)]
  {
    UrlsOfFront(rs);
  }

  /** `r` lists first results of urls of `rs`, in the order of `rs`. */
  ghost predicate FirstsInOrder(rs: seq<SearchResult>, r: seq<SearchResult>) {
    && (forall k :: 0 <= k < |r| ==> r[k].url in Urls(rs) && r[k] == rs[FirstWithUrl(rs, r[k].url)])
    && (forall k, l :: 0 <= k < l < |r| && r[k].url in Urls(rs) && r[l].url in Urls(rs) ==>
          FirstWithUrl(rs, r[k].url) < FirstWithUrl(rs, r[l].url))
  }

  /** The last result is the first of its url when no earlier one has it. */
  lemma FirstWithUrlLast(rs: seq<SearchResult>)
    requires rs != [] && rs[|rs| - 1].url !in Urls(rs[..|rs| - 1])
    ensures rs[|rs| - 1].url in Urls(rs) && FirstWithUrl(rs, rs[|rs| - 1].url) == |rs| - 1
  {
    UrlsOfFront(rs);
  }

  /** Results that were first of their url in the front of a list are
      first in the whole list, and come before its last result. */
  lemma FirstsOfFront(rs: seq<SearchResult>, d: seq<SearchResult>)
    requires rs != [] && FirstsInOrder(rs[..|rs| - 1], d)
    ensures FirstsInOrder(rs, d)
    ensures forall k :: 0 <= k < |d| ==> FirstWithUrl(rs, d[k].url) < |rs| - 1
  {
    var front := rs[..|rs| - 1];
    forall k | 0 <= k < |d|
      ensures d[k].url in Urls(rs) && FirstWithUrl(rs, d[k].url) == FirstWithUrl(front, d[k].url)
      ensures d[k] == rs[FirstWithUrl(rs, d[k].url)]
    {
      FirstWithUrlOfFront(rs, d[k].url);
    }
  }

  /** The last result, first of its url, can follow first results that
      come before it. */
  lemma FirstsAppendLast(rs: seq<SearchResult>, d: seq<SearchResult>)
    requires rs != [] && FirstsInOrder(rs, d)
    requires forall k :: 0 <= k < |d| ==> FirstWithUrl(rs, d[k].url) < |rs| - 1
    requires rs[|rs| - 1].url in Urls(rs) && FirstWithUrl(rs, rs[|rs| - 1].url) == |rs| - 1
    ensures FirstsInOrder(rs, d + [rs[|rs| - 1]])
  {
    LastIsFirst(rs, d);
    LastComesAfter(rs, d);
  }

  lemma LastIsFirst(rs: seq<SearchResult>, d: seq<SearchResult>)
    requires rs != [] && forall k :: 0 <= k < |d| ==> d[k].url in Urls(rs) && d[k] == rs[FirstWithUrl(rs, d[k].url)]
    requires rs[|rs| - 1].url in Urls(rs) && FirstWithUrl(rs, rs[|rs| - 1].url) == |rs| - 1
    ensures var r := d + [rs[|rs| - 1]];
      forall k :: 0 <= k < |r| ==> r[k].url in Urls(rs) && r[k] == rs[FirstWithUrl(rs, r[k].url)]
  {
    var r := d + [rs[|rs| - 1]];
    forall k | 0 <= k < |r| ensures r[k].url in Urls(rs) && r[k] == rs[FirstWithUrl(rs, r[k].url)] {
      if k < |d| {
        assert r[k] == d[k];
      }
    }
  }

  lemma LastComesAfter(rs: seq<SearchResult>, d: seq<SearchResult>)
    requires rs != [] && FirstsInOrder(rs, d)
    requires forall k :: 0 <= k < |d| ==> FirstWithUrl(rs, d[k].url) < |rs| - 1
    requires rs[|rs| - 1].url in Urls(rs) && FirstWithUrl(rs, rs[|rs| - 1].url) == |rs| - 1
    ensures var r := d + [rs[|rs| - 1]];
      forall k, l :: 0 <= k < l < |r| && r[k].url in Urls(rs) && r[l].url in Urls(rs) ==>
        FirstWithUrl(rs, r[k].url) < FirstWithUrl(rs, r[l].url)
  {
    var r := d + [rs[|rs| - 1]];
    forall k, l | 0 <= k < l < |r| && r[k].url in Urls(rs) && r[l].url in Urls(rs)
      ensures FirstWithUrl(rs, r[k].url) < FirstWithUrl(rs, r[l].url)
    {
      assert r[k] == d[k];
      if l < |d| {
        assert r[l] == d[l];
      }
    }
  }

  /** De-duplication keeps exactly the first result of every url, in the
      order those first results appear, so no url is kept twice. */
  lemma {:induction false} DedupKeepsFirsts(rs: seq<SearchResult>)
    ensures FirstsInOrder(rs, Dedup(rs))
    decreases |rs|
  {
    if rs != [] {
      var front := rs[..|rs| - 1];
      var d := Dedup(front);
      DedupKeepsFirsts(front);
      FirstsOfFront(rs, d);
      if rs[|rs| - 1].url !in Urls(d) {
        DedupUrls(front);
        FirstWithUrlLast(rs);
        FirstsAppendLast(rs, d);
      }
    }
  }

  /** No url is kept twice. */
  lemma DedupDistinct(rs: seq<SearchResult>)
    ensures var r := Dedup(rs);
      forall k, l :: 0 <= k < l < |r| ==> r[k].url != r[l].url
  {
    DedupKeepsFirsts(rs);
    var r := Dedup(rs);
    forall k, l | 0 <= k < l < |r| ensures r[k].url != r[l].url {
      assert r[k].url in Urls(rs) && r[l].url in Urls(rs);
    }
  }

  /** De-duplicating a longer list only adds results at the end. */
  lemma {:induction false} DedupMonotone(a: seq<SearchResult>, b: seq<SearchResult>)
    requires a <= b
    ensures Dedup(a) <= Dedup(b)
    decreases |b|
  {
    if |a| < |b| {
      var front := b[..|b| - 1];
      assert a <= front;
      DedupMonotone(a, front);
      var da, df, db := Dedup(a), Dedup(front), Dedup(b);
      assert df <= db;
      assert da == df[..|da|] && df == db[..|df|];
      assert db[..|df|][..|da|] == db[..|da|];
    } else {
      assert a == b;
    }
  }

  function Take(rs: seq<SearchResult>, n: nat): (r: seq<SearchResult>)
    ensures r <= rs && |r| == if |rs| < n then |rs| else n
  {
    if |rs| <= n then rs else rs[..n]
  }

  /** A result worth keeping: both url and title are non-empty. */
  predicate Usable(r: SearchResult) {
    r.url != "" && r.title != ""
  }

  /** Every result usable, and no url twice. */
  ghost predicate WellFormedResults(rs: seq<SearchResult>) {
    && (forall k :: 0 <= k < |rs| ==> Usable(rs[k]))
    && (forall k, l :: 0 <= k < l < |rs| ==> rs[k].url != rs[l].url)
  }

  /** De-duplicating and capping a list of usable results keeps at most
      `n` of them, all usable, with distinct urls. */
  lemma KeptShape(c: seq<SearchResult>, n: nat)
    requires forall k :: 0 <= k < |c| ==> Usable(c[k])
    ensures var r := Take(Dedup(c), n);
      && |r| <= n
      && WellFormedResults(r)
      && (forall k :: 0 <= k < |r| ==> r[k] in c)
  {
    DedupKeepsFirsts(c);
    DedupDistinct(c);
    var d := Dedup(c);
    var r := Take(d, n);
    forall k | 0 <= k < |r| ensures r[k] in c && Usable(r[k]) {
      assert r[k] == d[k];
      assert d[k] == c[FirstWithUrl(c, d[k].url)];
    }
  }

  /** A prefix of well-formed results is well formed. */
  lemma TakeWellFormed(rs: seq<SearchResult>, n: nat)
    requires WellFormedResults(rs)
    ensures WellFormedResults(Take(rs, n))
  {
    var r := Take(rs, n);
    assert forall k :: 0 <= k < |r| ==> r[k] == rs[k];
  }

  /** The first `n` matches, each converted, keeping those `usable`
      accepts, in match order. */
  function KeptUpTo<M, R>(ms: seq<M>, convert: M -> R, usable: R -> bool, n: nat): seq<R>
    requires n <= |ms|
  {
    if n == 0 then []
    else
      var front := KeptUpTo(ms, convert, usable, n - 1);
      var c := convert(ms[n - 1]);
      if usable(c) then front + [c] else front
  }

  /** Everything kept is accepted. */
  lemma {:induction false} KeptUsable<M, R>(ms: seq<M>, convert: M -> R, usable: R -> bool, n: nat)
    requires n <= |ms|
    ensures forall k :: 0 <= k < |KeptUpTo(ms, convert, usable, n)| ==> usable(KeptUpTo(ms, convert, usable, n)[k])
  {
    if n > 0 {
      KeptUsable(ms, convert, usable, n - 1);
      var front := KeptUpTo(ms, convert, usable, n - 1);
      var c := convert(ms[n - 1]);
      if usable(c) {
        assert forall k :: 0 <= k < |front| ==> (front + [c])[k] == front[k];
        assert (front + [c])[|front|] == c;
      }
    }
  }

  /** What is kept is exactly the accepted conversions of the matches. */
  lemma {:induction false} KeptExactly<M, R>(ms: seq<M>, convert: M -> R, usable: R -> bool, n: nat)
    requires n <= |ms|
    ensures forall k :: 0 <= k < |KeptUpTo(ms, convert, usable, n)| ==>
      exists j :: 0 <= j < n && KeptUpTo(ms, convert, usable, n)[k] == convert(ms[j])
    ensures forall j :: 0 <= j < n && usable(convert(ms[j])) ==> convert(ms[j]) in KeptUpTo(ms, convert, usable, n)
  {
    if n > 0 {
      KeptExactly(ms, convert, usable, n - 1);
      var front := KeptUpTo(ms, convert, usable, n - 1);
      var kept := KeptUpTo(ms, convert, usable, n);
      assert front <= kept;
      forall k | 0 <= k < |kept| ensures exists j :: 0 <= j < n && kept[k] == convert(ms[j]) {
        if k < |front| {
          var j :| 0 <= j < n - 1 && front[k] == convert(ms[j]);
          assert kept[k] == convert(ms[j]);
        } else {
          assert kept[k] == convert(ms[n - 1]);
        }
      }
      forall j | 0 <= j < n && usable(convert(ms[j])) ensures convert(ms[j]) in kept {
        if j < n - 1 {
          var k :| 0 <= k < |front| && front[k] == convert(ms[j]);
          assert kept[k] == front[k];
        } else {
          assert kept[|front|] == convert(ms[n - 1]);
        }
      }
    } else {
      assert KeptUpTo(ms, convert, usable, n) == [];
    }
  }

  /** Looking at more matches only adds to the end of what is kept. */
  lemma {:induction false} KeptMonotone<M, R>(ms: seq<M>, convert: M -> R, usable: R -> bool, i: nat, j: nat)
    requires i <= j <= |ms|
    ensures KeptUpTo(ms, convert, usable, i) <= KeptUpTo(ms, convert, usable, j)
    decreases j
  {
    if i < j {
      KeptMonotone(ms, convert, usable, i, j - 1);
    }
  }

  /** One more match adds its result exactly when it is usable with a new
      url. */
  lemma KeptDedupStep<M>(ms: seq<M>, convert: M -> SearchResult, i: nat)
    requires i < |ms|
    ensures Dedup(KeptUpTo(ms, convert, Usable, i + 1)) ==
      var d := Dedup(KeptUpTo(ms, convert, Usable, i));
      if Usable(convert(ms[i])) && convert(ms[i]).url !in Urls(d) then d + [convert(ms[i])] else d
  {
    DedupStep(KeptUpTo(ms, convert, Usable, i), convert(ms[i]));
  }

  /** Stopping at 15 results, or at the end of the matches, gives the
      first 15 de-duplicated results of all of them. */
  lemma KeptCapped<M>(ms: seq<M>, convert: M -> SearchResult, i: nat)
    requires i <= |ms|
    requires |Dedup(KeptUpTo(ms, convert, Usable, i))| <= MaxExtracted
    requires i == |ms| || |Dedup(KeptUpTo(ms, convert, Usable, i))| == MaxExtracted
    ensures Dedup(KeptUpTo(ms, convert, Usable, i)) == Take(Dedup(KeptUpTo(ms, convert, Usable, |ms|)), MaxExtracted)
  {
    KeptMonotone(ms, convert, Usable, i, |ms|);
    DedupMonotone(KeptUpTo(ms, convert, Usable, i), KeptUpTo(ms, convert, Usable, |ms|));
  }

  /** The loop of `extractHtmlResults` over its converted matches: keeps a
      usable result whose url has not been seen, and stops at 15 results. */
  method KeepFirstResults<M>(matches: seq<M>, convert: M -> SearchResult) returns (results: seq<SearchResult>)
    ensures results == Take(Dedup(KeptUpTo(matches, convert, Usable, |matches|)), MaxExtracted)
  {
    results := [];
    var seenUrls: set<string> := {};
    var i := 0;
    while i < |matches| && |results| < MaxExtracted
      invariant 0 <= i <= |matches|
      invariant results == Dedup(KeptUpTo(matches, convert, Usable, i))
      invariant seenUrls == Urls(results)
      invariant |results| <= MaxExtracted
    {
      var candidate := convert(matches[i]);
      KeptDedupStep(matches, convert, i);
      if Usable(candidate) && candidate.url !in seenUrls {
        UrlsAppend(results, candidate);
        seenUrls := seenUrls + {candidate.url};
        results := results + [candidate];
      }
      i := i + 1;
    }
    KeptCapped(matches, convert, i);
  }

  /** The result one match of the html page gives. */
  function HtmlCandidate(m: PairMatch): SearchResult {
    SearchResult(NormalizeText(m.titleHtml), CleanUrl(m.href), NormalizeText(m.snippetHtml))
  }

  /** The usable results of all the html page's matches, in match order. */
  function HtmlCandidates(ms: seq<PairMatch>): seq<SearchResult> {
    KeptUpTo(ms, HtmlCandidate, Usable, |ms|)
  }

  /** What `extractHtmlResults` returns for the page's matches. */
  function HtmlResults(ms: seq<PairMatch>): seq<SearchResult> {
    Take(Dedup(HtmlCandidates(ms)), MaxExtracted)
  }

  /** At most 15 results, each with a url and a title, no url twice, and
      each one of the page's usable candidates. */
  lemma HtmlResultsShape(ms: seq<PairMatch>)
    ensures var r := HtmlResults(ms);
      && |r| <= MaxExtracted
      && WellFormedResults(r)
      && (forall k :: 0 <= k < |r| ==> r[k] in HtmlCandidates(ms))
  {
    KeptUsable(ms, HtmlCandidate, Usable, |ms|);
    assert HtmlCandidates(ms) == KeptUpTo(ms, HtmlCandidate, Usable, |ms|);
    KeptShape(HtmlCandidates(ms), MaxExtracted);
  }

  /** `extractHtmlResults`. */
  method ExtractHtmlResults(matches: seq<PairMatch>) returns (results: seq<SearchResult>)
    ensures results == HtmlResults(matches)
  {
    results := KeepFirstResults(matches, HtmlCandidate);
  }

  /** The link one link match of the lite page gives. */
  function LinkOf(m: LinkMatch): Link {
    Link(CleanUrl(m.href), NormalizeText(m.titleHtml))
  }

  /** A link worth keeping: both url and title are non-empty. */
  predicate UsableLink(l: Link) {
    l.url != "" && l.title != ""
  }

  /** The usable links of all the lite page's link matches, in match
      order. */
  function LiteLinks(ms: seq<LinkMatch>): seq<Link> {
    KeptUpTo(ms, LinkOf, UsableLink, |ms|)
  }

  /** The first loop of `extractLiteResults` over its converted matches:
      the accepted ones, in match order. */
  method CollectKept<M, R>(ms: seq<M>, convert: M -> R, usable: R -> bool) returns (kept: seq<R>)
    ensures kept == KeptUpTo(ms, convert, usable, |ms|)
  {
    kept := [];
    var i := 0;
    while i < |ms|
      invariant 0 <= i <= |ms|
      invariant kept == KeptUpTo(ms, convert, usable, i)
    {
      var c := convert(ms[i]);
      if usable(c) {
        kept := kept + [c];
      }
      i := i + 1;
    }
  }

  /** The first loop of `extractLiteResults`: the usable links. */
  method CollectLinks(linkMatches: seq<LinkMatch>) returns (links: seq<Link>)
    ensures links == LiteLinks(linkMatches)
  {
    links := CollectKept(linkMatches, LinkOf, UsableLink);
  }

  function NormalizedSnippets(snippetHtml: seq<string>): (r: seq<string>)
    ensures |r| == |snippetHtml|
    ensures forall k :: 0 <= k < |r| ==> r[k] == NormalizeText(snippetHtml[k])
  {
    seq(|snippetHtml|, k requires 0 <= k < |snippetHtml| => NormalizeText(snippetHtml[k]))
  }

  lemma SnippetsStep(snippetHtml: seq<string>, i: nat)
    requires i < |snippetHtml|
    ensures NormalizedSnippets(snippetHtml)[..i + 1] == NormalizedSnippets(snippetHtml)[..i] + [NormalizeText(snippetHtml[i])]
  {
    var all := NormalizedSnippets(snippetHtml);
    PrefixStep(all, i);
  }

  lemma PrefixStep(xs: seq<string>, i: nat)
    requires i < |xs|
    ensures xs[..i + 1] == xs[..i] + [xs[i]]
  {
  }

  /** `snippets[i] || ""`: the i-th snippet, or empty when there is none. */
  function SnippetAt(snippets: seq<string>, i: nat): string {
    if i < |snippets| then snippets[i] else ""
  }

  /** Link i paired with snippet i, for the first `n` links. */
  function Paired(links: seq<Link>, snippets: seq<string>, n: nat): (rs: seq<SearchResult>)
    requires n <= |links|
    ensures |rs| == n
  {
    if n == 0 then []
    else Paired(links, snippets, n - 1) + [SearchResult(links[n - 1].title, links[n - 1].url, SnippetAt(snippets, n - 1))]
  }

  /** Result j pairs link j with snippet j, or with none. */
  lemma {:induction false} PairedEntries(links: seq<Link>, snippets: seq<string>, n: nat)
    requires n <= |links|
    ensures var p := Paired(links, snippets, n);
      forall j :: 0 <= j < n ==> p[j] == SearchResult(links[j].title, links[j].url, SnippetAt(snippets, j))
  {
    if n > 0 {
      PairedEntries(links, snippets, n - 1);
      var front := Paired(links, snippets, n - 1);
      assert forall j :: 0 <= j < n - 1 ==> Paired(links, snippets, n)[j] == front[j];
    }
  }

  function Min(a: nat, b: nat): nat {
    if a < b then a else b
  }

  /** What `extractLiteResults` returns for the page's link and snippet
      matches. */
  function LiteResults(linkMatches: seq<LinkMatch>, snippetHtml: seq<string>): seq<SearchResult> {
    var links := LiteLinks(linkMatches);
    Dedup(Paired(links, NormalizedSnippets(snippetHtml), Min(|links|, MaxExtracted)))
  }

  /** Pairing usable links gives usable results, each link i with snippet
      i or none. */
  lemma PairedShape(links: seq<Link>, snippets: seq<string>, n: nat)
    requires n <= |links|
    requires forall k :: 0 <= k < |links| ==> UsableLink(links[k])
    ensures forall k :: 0 <= k < n ==> Usable(Paired(links, snippets, n)[k])
  {
    PairedEntries(links, snippets, n);
  }

  /** Only the first 15 usable links count, each result pairs a link with
      the snippet at the same position (or none), and no url comes twice. */
  lemma LiteResultsShape(linkMatches: seq<LinkMatch>, snippetHtml: seq<string>)
    ensures var r := LiteResults(linkMatches, snippetHtml);
      var links := LiteLinks(linkMatches);
      var snippets := NormalizedSnippets(snippetHtml);
      && |r| <= MaxExtracted
      && WellFormedResults(r)
      && (forall k :: 0 <= k < |r| ==>
            r[k] in Paired(links, snippets, Min(|links|, MaxExtracted)))
  {
    var links := LiteLinks(linkMatches);
    var n := Min(|links|, MaxExtracted);
    var p := Paired(links, NormalizedSnippets(snippetHtml), n);
    KeptUsable(linkMatches, LinkOf, UsableLink, |linkMatches|);
    assert links == KeptUpTo(linkMatches, LinkOf, UsableLink, |linkMatches|);
    PairedShape(links, NormalizedSnippets(snippetHtml), n);
    KeptShape(p, n);
    assert Take(Dedup(p), n) == Dedup(p);
  }

  /** The second loop of `extractLiteResults`: every snippet normalised. */
  method CollectSnippets(snippetHtml: seq<string>) returns (snippets: seq<string>)
    ensures snippets == NormalizedSnippets(snippetHtml)
  {
    snippets := [];
    var i := 0;
    while i < |snippetHtml|
      invariant 0 <= i <= |snippetHtml|
      invariant snippets == NormalizedSnippets(snippetHtml)[..i]
    {
      var snippet := NormalizeText(snippetHtml[i]);
      SnippetsStep(snippetHtml, i);
      snippets := snippets + [snippet];
      i := i + 1;
    }
    assert NormalizedSnippets(snippetHtml)[..i] == NormalizedSnippets(snippetHtml);
  }

  /** One more link adds its pair exactly when its url is new. */
  lemma PairedDedupStep(links: seq<Link>, snippets: seq<string>, i: nat)
    requires i < |links|
    ensures Dedup(Paired(links, snippets, i + 1)) ==
      var d := Dedup(Paired(links, snippets, i));
      var pair := SearchResult(links[i].title, links[i].url, SnippetAt(snippets, i));
      if links[i].url !in Urls(d) then d + [pair] else d
  {
    DedupStep(Paired(links, snippets, i), SearchResult(links[i].title, links[i].url, SnippetAt(snippets, i)));
  }

  /** The zip loop of `extractLiteResults`: link i with snippet i over the
      first `min(links.length, 15)` links, skipping urls already seen. */
  method PairByPosition(links: seq<Link>, snippets: seq<string>) returns (results: seq<SearchResult>)
    ensures results == Dedup(Paired(links, snippets, Min(|links|, MaxExtracted)))
  {
    results := [];
    var seenUrls: set<string> := {};
    var n := Min(|links|, MaxExtracted);
    var i := 0;
    while i < n
      invariant 0 <= i <= n
      invariant results == Dedup(Paired(links, snippets, i))
      invariant seenUrls == Urls(results)
    {
      var pair := SearchResult(links[i].title, links[i].url, if i < |snippets| then snippets[i] else "");
      PairedDedupStep(links, snippets, i);
      if links[i].url !in seenUrls {
        UrlsAppend(results, pair);
        seenUrls := seenUrls + {links[i].url};
        results := results + [pair];
      }
      i := i + 1;
    }
  }

  /** `extractLiteResults`: collects the usable links and all snippets,
      then pairs them by position over the first 15 links, skipping urls
      already seen. */
  method ExtractLiteResults(linkMatches: seq<LinkMatch>, snippetHtml: seq<string>)
    returns (results: seq<SearchResult>)
    ensures results == LiteResults(linkMatches, snippetHtml)
  {
    var links := CollectLinks(linkMatches);
    var snippets := CollectSnippets(snippetHtml);
    results := PairByPosition(links, snippets);
  }

  // ---------------------------------------------------------------------
  // The tool

  /** What one request to an endpoint came to: a response with its status,
      its body and the body's pattern matches, a failed fetch with its
      error message, or the abort after 15 seconds. */
  datatype Fetch<C> =
    | Received(status: nat, html: string, captures: C)
    | NetworkError(message: string)
    | Aborted

  /** The lite page's link matches and snippet matches. */
  datatype LitePage = LitePage(links: seq<LinkMatch>, snippets: seq<string>)

  /** An error thrown by a fetch: the abort, or an `Error` with its message. */
  datatype Failure = AbortError | Thrown(message: string)

  datatype SearchOutcome =
    | Found(query: string, resultCount: nat, results: seq<SearchResult>)
    | NoResults(query: string, message: string)
    | Failed(query: string, error: string)
  {
    predicate Success() { !Failed? }
  }

  function DigitChar(d: nat): char
    requires d < 10
  {
    ('0' as int + d) as char
  }

  /** The decimal digits of a status code. */
  function Decimal(n: nat): (r: string)
    ensures r != [] && forall i :: 0 <= i < |r| ==> '0' <= r[i] <= '9'
  {
    if n < 10 then [DigitChar(n)] else Decimal(n / 10) + [DigitChar(n % 10)]
  }

  /** The number a string of decimal digits denotes. */
  function DigitsValue(s: string): nat
    requires forall i :: 0 <= i < |s| ==> '0' <= s[i] <= '9'
  {
    if s == [] then 0 else 10 * DigitsValue(s[..|s| - 1]) + (s[|s| - 1] as int - '0' as int)
  }

  /** The digits of a status code denote it, without a leading zero. */
  lemma {:induction false} DecimalValue(n: nat)
    ensures DigitsValue(Decimal(n)) == n
    ensures Decimal(n)[0] == '0' ==> n == 0
  {
    if n >= 10 {
      DecimalValue(n / 10);
      var r := Decimal(n);
      assert r[..|r| - 1] == Decimal(n / 10);
      assert r[0] == Decimal(n / 10)[0];
    }
  }

  /** The checks both fetch helpers make on a response: a non-2xx status
      throws `HTTP <status>`, an anti-bot page throws `BLOCKED`. */
  function Retrieve<C>(f: Fetch<C>): (r: Result<C, Failure>)
    ensures r.Ok? <==> f.Received? && 200 <= f.status <= 299 && !IsBlocked(f.html)
    ensures r.Ok? ==> r.value == f.captures
    ensures r == Err(AbortError) <==> f.Aborted?
    ensures f.NetworkError? ==> r == Err(Thrown(f.message))
  {
    match f
    case Aborted => Err(AbortError)
    case NetworkError(m) => Err(Thrown(m))
    case Received(status, html, captures) =>
      if !(200 <= status <= 299) then Err(Thrown("HTTP " + Decimal(status)))
      else if IsBlocked(html) then Err(Thrown("BLOCKED"))
      else Ok(captures)
  }

  /** `fetchHtmlDDG`. */
  function FetchHtml(f: Fetch<seq<PairMatch>>): (r: Result<seq<SearchResult>, Failure>)
    ensures r.Err? <==> Retrieve(f).Err?
    ensures r.Err? ==> r.error == Retrieve(f).error
    ensures r.Ok? ==> |r.value| <= MaxExtracted
  {
    match Retrieve(f)
    case Ok(ms) => Ok(HtmlResults(ms))
    case Err(e) => Err(e)
  }

  /** `fetchLiteDDG`. */
  function FetchLite(f: Fetch<LitePage>): (r: Result<seq<SearchResult>, Failure>)
    ensures r.Err? <==> Retrieve(f).Err?
    ensures r.Err? ==> r.error == Retrieve(f).error
    ensures r.Ok? ==> |r.value| <= MaxExtracted
  {
    match Retrieve(f)
    case Ok(page) => Ok(LiteResults(page.links, page.snippets))
    case Err(e) => Err(e)
  }

  /** The html endpoint, and the lite endpoint only when that throws. Both
      share one abort signal: once the html request was aborted, the lite
      request is aborted from the start. */
  function Search(html: Fetch<seq<PairMatch>>, lite: Fetch<LitePage>): (r: Result<seq<SearchResult>, Failure>)
    ensures FetchHtml(html).Ok? ==> r == FetchHtml(html)
    ensures r.Ok? <==> FetchHtml(html).Ok? || (!html.Aborted? && FetchLite(lite).Ok?)
    ensures html.Aborted? ==> r == Err(AbortError)
    ensures r.Ok? ==> |r.value| <= MaxExtracted
  {
    match FetchHtml(html)
    case Ok(rs) => Ok(rs)
    case Err(_) => FetchLite(if html.Aborted? then Aborted else lite)
  }

  /** `execute`: the first `maxResults` results (5 when absent), a
      separate answer for none, and each error mapped to its message. */
  function Execute(query: string, maxResults: Option<nat>, html: Fetch<seq<PairMatch>>, lite: Fetch<LitePage>): (r: SearchOutcome)
    requires maxResults.Some? ==> 1 <= maxResults.value <= 10
    ensures r.query == query
    ensures r.Found? ==> 1 <= r.resultCount == |r.results| <= maxResults.GetOr(DefaultMaxResults)
    ensures r.NoResults? ==> r.message == NoResultsMessage
    ensures html.Aborted? ==> r == Failed(query, TimeoutMessage)
  {
    match Search(html, lite)
    case Ok(rs) =>
      var finalResults := Take(rs, maxResults.GetOr(DefaultMaxResults));
      if |finalResults| == 0 then NoResults(query, NoResultsMessage)
      else Found(query, |finalResults|, finalResults)
    case Err(AbortError) => Failed(query, TimeoutMessage)
    case Err(Thrown(m)) => if m == "BLOCKED" then Failed(query, BlockedMessage) else Failed(query, m)
  }

  /** The lite endpoint is consulted only when the html endpoint throws. */
  lemma LiteOnlyAsFallback(query: string, maxResults: Option<nat>, html: Fetch<seq<PairMatch>>,
                           lite1: Fetch<LitePage>, lite2: Fetch<LitePage>)
    requires maxResults.Some? ==> 1 <= maxResults.value <= 10
    requires FetchHtml(html).Ok?
    ensures Execute(query, maxResults, html, lite1) == Execute(query, maxResults, html, lite2)
    ensures Execute(query, maxResults, html, lite1).Success()
  {
  }

  /** When the html endpoint throws, its error is dropped: the answer is
      what the lite endpoint alone gives. */
  lemma HtmlErrorDiscarded(query: string, maxResults: Option<nat>, html1: Fetch<seq<PairMatch>>,
                           html2: Fetch<seq<PairMatch>>, lite: Fetch<LitePage>)
    requires maxResults.Some? ==> 1 <= maxResults.value <= 10
    requires FetchHtml(html1).Err? && FetchHtml(html2).Err? && !html1.Aborted? && !html2.Aborted?
    ensures Execute(query, maxResults, html1, lite) == Execute(query, maxResults, html2, lite)
  {
  }

  /** A successful answer holds the first results of the endpoint that
      answered, as many as asked for or as there are, and it is the
      "no results" answer exactly when that list is empty. */
  lemma ExecuteTruncates(query: string, maxResults: Option<nat>, html: Fetch<seq<PairMatch>>, lite: Fetch<LitePage>)
    requires maxResults.Some? ==> 1 <= maxResults.value <= 10
    requires Search(html, lite).Ok?
    ensures var rs := Search(html, lite).value;
      var n := maxResults.GetOr(DefaultMaxResults);
      var r := Execute(query, maxResults, html, lite);
      && (r.NoResults? <==> rs == [])
      && (r.Found? ==> r.results <= rs && |r.results| == Min(|rs|, n))
  {
  }

  /** The errors the tool reports: the timeout, the anti-bot block, an HTTP
      status, or the fetch's own message. */
  lemma ExecuteErrors(query: string, maxResults: Option<nat>, html: Fetch<seq<PairMatch>>, lite: Fetch<LitePage>)
    requires maxResults.Some? ==> 1 <= maxResults.value <= 10
    requires FetchHtml(html).Err? && !html.Aborted?
    ensures var r := Execute(query, maxResults, html, lite);
      && (lite.Aborted? ==> r == Failed(query, TimeoutMessage))
      && (lite.Received? && 200 <= lite.status <= 299 && IsBlocked(lite.html) ==> r == Failed(query, BlockedMessage))
      && (lite.Received? && !(200 <= lite.status <= 299) ==> r == Failed(query, "HTTP " + Decimal(lite.status)))
      && (lite.NetworkError? && lite.message != "BLOCKED" ==> r == Failed(query, lite.message))
  {
    if lite.Received? && !(200 <= lite.status <= 299) {
      assert ("HTTP " + Decimal(lite.status))[0] == 'H';
    }
  }

  /** Whatever endpoint answers, its results are usable with distinct urls. */
  lemma SearchWellFormed(html: Fetch<seq<PairMatch>>, lite: Fetch<LitePage>)
    ensures Search(html, lite).Ok? ==> WellFormedResults(Search(html, lite).value)
  {
    if Retrieve(html).Ok? {
      HtmlResultsShape(Retrieve(html).value);
    } else {
      var l := if html.Aborted? then Aborted else lite;
      if Retrieve(l).Ok? {
        LiteResultsShape(Retrieve(l).value.links, Retrieve(l).value.snippets);
      }
    }
  }

  /** Every result the tool returns has a url and a title, and no url is
      returned twice. */
  lemma ExecuteResultsWellFormed(query: string, maxResults: Option<nat>, html: Fetch<seq<PairMatch>>, lite: Fetch<LitePage>)
    requires maxResults.Some? ==> 1 <= maxResults.value <= 10
    ensures var r := Execute(query, maxResults, html, lite);
      r.Found? ==> WellFormedResults(r.results)
  {
    SearchWellFormed(html, lite);
    if Search(html, lite).Ok? {
      TakeWellFormed(Search(html, lite).value, maxResults.GetOr(DefaultMaxResults));
    }
  }
}
