/** The text-utilities tool: word and character counts, reversal,
    truncation, slugs, and the base64 and URL encodings, each answering
    with its result or, when the host function throws, with a failure. */
module TextUtils {
  import opened Wrappers
  import Strings
  import Base64
  import Uri

  const DefaultMaxLength := 100

  // ---------------------------------------------------------------------
  // Word and character counts

  /** The index of the first whitespace character, or `|s|`. */
  function FirstSpace(s: string): (r: nat)
    ensures r <= |s|
    ensures r < |s| ==> Strings.IsSpace(s[r])
    ensures forall j :: 0 <= j < r ==> !Strings.IsSpace(s[j])
  {
    if s == [] || Strings.IsSpace(s[0]) then 0 else 1 + FirstSpace(s[1..])
  }

  /** `s.split(/\s+/)`: the pieces between the maximal whitespace runs. */
  function SplitOnSpaces(s: string): (r: seq<string>)
    ensures |r| >= 1
    decreases |s|
  {
    var k := FirstSpace(s);
    if k == |s| then [s]
    else [s[..k]] + SplitOnSpaces(Strings.DropWhile(s[k..], Strings.IsSpace))
  }

  /** No whitespace character inside a string. */
  predicate NoSpace(w: string) {
    forall j :: 0 <= j < |w| ==> !Strings.IsSpace(w[j])
  }

  /** The pieces of a split hold no whitespace. */
  lemma {:induction false} SplitPiecesHaveNoSpace(s: string)
    ensures forall k :: 0 <= k < |SplitOnSpaces(s)| ==> NoSpace(SplitOnSpaces(s)[k])
    decreases |s|
  {
    var k := FirstSpace(s);
    FirstWordHasNoSpace(s);
    if k < |s| {
      var t := Strings.DropWhile(s[k..], Strings.IsSpace);
      SplitPiecesHaveNoSpace(t);
      PrependNoSpace(s[..k], SplitOnSpaces(t));
    } else {
      assert s[..k] == s;
    }
  }

  lemma FirstWordHasNoSpace(s: string)
    ensures NoSpace(s[..FirstSpace(s)])
  {
    var k := FirstSpace(s);
    assert forall j :: 0 <= j < k ==> s[..k][j] == s[j];
  }

  lemma PrependNoSpace(w: string, rest: seq<string>)
    requires NoSpace(w) && forall k :: 0 <= k < |rest| ==> NoSpace(rest[k])
    ensures forall k :: 0 <= k < |[w] + rest| ==> NoSpace(([w] + rest)[k])
  {
    forall k | 0 <= k < |[w] + rest| ensures NoSpace(([w] + rest)[k]) {
      if k > 0 {
        assert ([w] + rest)[k] == rest[k - 1];
      }
    }
  }

  /** `.filter(Boolean)` on strings: the non-empty ones. */
  function NonEmpty(xs: seq<string>): (r: seq<string>)
    ensures |r| <= |xs|
    ensures (forall k :: 0 <= k < |xs| ==> xs[k] != []) ==> r == xs
  {
    if xs == [] then []
    else if xs[0] == [] then NonEmpty(xs[1..])
    else [xs[0]] + NonEmpty(xs[1..])
  }

  /** `text.trim().split(/\s+/).filter(Boolean).length`: the number of
      words, each word a maximal run of non-whitespace characters. */
  function WordCount(text: string): (r: nat)
    ensures r == Runs(text)
  {
    SplitRuns(Strings.Trim(text));
    TrimRuns(text);
    |NonEmpty(SplitOnSpaces(Strings.Trim(text)))|
  }

  /** A word starts at `i`: a non-whitespace character at the start of the
      text or right after whitespace. */
  predicate WordStart(s: string, i: nat)
    requires i < |s|
  {
    !Strings.IsSpace(s[i]) && (i == 0 || Strings.IsSpace(s[i - 1]))
  }

  /** The number of word starts below index `n`. */
  function StartsBelow(s: string, n: nat): nat
    requires n <= |s|
  {
    if n == 0 then 0 else StartsBelow(s, n - 1) + (if WordStart(s, n - 1) then 1 else 0)
  }

  /** The number of maximal runs of non-whitespace characters. */
  function Runs(s: string): nat {
    StartsBelow(s, |s|)
  }

  lemma {:induction false} StartsBelowPrefix(u: string, v: string, n: nat)
    requires n <= |u|
    ensures StartsBelow(u + v, n) == StartsBelow(u, n)
  {
    if n > 0 {
      StartsBelowPrefix(u, v, n - 1);
      assert (u + v)[n - 1] == u[n - 1];
      assert n - 1 > 0 ==> (u + v)[n - 2] == u[n - 2];
    }
  }

  lemma {:induction false} StartsBelowShift(u: string, v: string, m: nat)
    requires m <= |v|
    requires u == [] || v == [] || Strings.IsSpace(u[|u| - 1]) || Strings.IsSpace(v[0])
    ensures StartsBelow(u + v, |u| + m) == Runs(u) + StartsBelow(v, m)
  {
    if m == 0 {
      StartsBelowPrefix(u, v, |u|);
    } else {
      StartsBelowShift(u, v, m - 1);
      var s := u + v;
      assert s[|u| + m - 1] == v[m - 1];
      if m > 1 {
        assert s[|u| + m - 2] == v[m - 2];
      } else if u != [] {
        assert s[|u| - 1] == u[|u| - 1];
      }
      assert WordStart(s, |u| + m - 1) == WordStart(v, m - 1);
    }
  }

  /** Joining at whitespace adds up the runs. */
  lemma RunsConcat(u: string, v: string)
    requires u == [] || v == [] || Strings.IsSpace(u[|u| - 1]) || Strings.IsSpace(v[0])
    ensures Runs(u + v) == Runs(u) + Runs(v)
  {
    StartsBelowShift(u, v, |v|);
  }

  lemma {:induction false} StartsBelowWord(w: string, n: nat)
    requires NoSpace(w) && n <= |w|
    ensures StartsBelow(w, n) == if n == 0 then 0 else 1
  {
    if n > 0 {
      StartsBelowWord(w, n - 1);
    }
  }

  lemma {:induction false} StartsBelowBlank(d: string, n: nat)
    requires Strings.AllSpace(d) && n <= |d|
    ensures StartsBelow(d, n) == 0
  {
    if n > 0 {
      StartsBelowBlank(d, n - 1);
    }
  }

  /** The pieces of a split that are not empty are the runs. */
  lemma {:induction false} SplitRuns(s: string)
    ensures |NonEmpty(SplitOnSpaces(s))| == Runs(s)
    decreases |s|
  {
    if FirstSpace(s) == |s| {
      RunsOfWord(s);
    } else {
      var t := AfterFirstWord(s);
      PiecesAfterFirstWord(s);
      RunsAfterFirstWord(s);
      SplitRuns(t);
    }
  }

  /** The text after the first word and the whitespace that ends it. */
  function AfterFirstWord(s: string): (r: string)
    requires FirstSpace(s) < |s|
    ensures |r| < |s|
  {
    Strings.DropWhile(s[FirstSpace(s)..], Strings.IsSpace)
  }

  lemma PiecesAfterFirstWord(s: string)
    requires FirstSpace(s) < |s|
    ensures |NonEmpty(SplitOnSpaces(s))| ==
      (if FirstSpace(s) == 0 then 0 else 1) + |NonEmpty(SplitOnSpaces(AfterFirstWord(s)))|
  {
    var k := FirstSpace(s);
    var t := AfterFirstWord(s);
    assert SplitOnSpaces(s) == [s[..k]] + SplitOnSpaces(t);
    NonEmptyCons(s[..k], SplitOnSpaces(t));
  }

  lemma RunsAfterFirstWord(s: string)
    requires FirstSpace(s) < |s|
    ensures Runs(s) == (if FirstSpace(s) == 0 then 0 else 1) + Runs(AfterFirstWord(s))
  {
    var k := FirstSpace(s);
    FirstWordHasNoSpace(s);
    RunsAtSpace(s, k);
    RunsAfterSpace(s[k..]);
  }

  lemma RunsAtSpace(s: string, k: nat)
    requires k < |s| && NoSpace(s[..k]) && Strings.IsSpace(s[k])
    ensures Runs(s) == (if k == 0 then 0 else 1) + Runs(s[k..])
  {
    var w, sp := s[..k], s[k..];
    assert sp[0] == s[k] && |w| == k;
    RunsAfterWord(w, sp);
    assert w + sp == s;
  }

  /** Text without whitespace is one piece, and one run unless empty. */
  lemma RunsOfWord(s: string)
    requires FirstSpace(s) == |s|
    ensures |NonEmpty(SplitOnSpaces(s))| == Runs(s)
  {
    FirstWordHasNoSpace(s);
    assert s[..|s|] == s;
    StartsBelowWord(s, |s|);
    assert SplitOnSpaces(s) == [s];
    assert [s][1..] == [];
  }

  /** A word followed by whitespace adds one run, unless it is empty, to
      the runs after it. */
  lemma RunsAfterWord(w: string, sp: string)
    requires NoSpace(w) && sp != [] && Strings.IsSpace(sp[0])
    ensures Runs(w + sp) == (if |w| == 0 then 0 else 1) + Runs(sp)
  {
    RunsConcat(w, sp);
    StartsBelowWord(w, |w|);
  }

  lemma NonEmptyCons(w: string, xs: seq<string>)
    ensures |NonEmpty([w] + xs)| == (if w == [] then 0 else 1) + |NonEmpty(xs)|
  {
    assert ([w] + xs)[0] == w && ([w] + xs)[1..] == xs;
  }

  /** Leading whitespace adds no run. */
  lemma RunsAfterSpace(sp: string)
    ensures Runs(sp) == Runs(Strings.DropWhile(sp, Strings.IsSpace))
  {
    var t := Strings.DropWhile(sp, Strings.IsSpace);
    var d := sp[..|sp| - |t|];
    assert Strings.AllSpace(d) by {
      forall i | 0 <= i < |d| ensures Strings.IsSpace(d[i]) {
        assert d[i] == sp[i];
      }
    }
    assert sp == d + t;
    RunsAfterBlank(d, t);
  }

  lemma RunsAfterBlank(d: string, t: string)
    requires Strings.AllSpace(d)
    ensures Runs(d + t) == Runs(t)
  {
    StartsBelowBlank(d, |d|);
    RunsConcat(d, t);
  }

  /** Trimming leaves the runs as they were. */
  lemma TrimRuns(s: string)
    ensures Runs(Strings.Trim(s)) == Runs(s)
  {
    Strings.TrimRemovesOuterSpace(s);
    var r := Strings.Trim(s);
    var lead, trail :| s == lead + r + trail && Strings.AllSpace(lead) && Strings.AllSpace(trail);
    StartsBelowBlank(lead, |lead|);
    StartsBelowBlank(trail, |trail|);
    RunsConcat(lead, r);
    RunsConcat(lead + r, trail);
  }

  /** A word: a non-empty run of non-whitespace characters. */
  predicate IsWord(w: string) {
    w != [] && NoSpace(w)
  }

  /** A word followed by a space and text that does not start with
      whitespace splits into the word and the split of that text. */
  lemma SplitAfterWord(w: string, rest: string)
    requires IsWord(w) && (rest == [] || !Strings.IsSpace(rest[0]))
    ensures SplitOnSpaces(w + " " + rest) == [w] + SplitOnSpaces(rest)
  {
    var s := w + " " + rest;
    assert FirstSpace(s) == |w| by {
      assert s[|w|] == ' ';
      assert forall j :: 0 <= j < |w| ==> s[j] == w[j];
    }
    assert s[..|w|] == w;
    assert s[|w|..] == [' '] + rest;
    assert ([' '] + rest)[1..] == rest;
  }

  /** Splitting words joined by single spaces gives the words back. */
  lemma {:induction false} SplitJoined(ws: seq<string>)
    requires ws != [] && forall k :: 0 <= k < |ws| ==> IsWord(ws[k])
    ensures SplitOnSpaces(Strings.Join(ws, " ")) == ws
    decreases |ws|
  {
    var s := Strings.Join(ws, " ");
    if |ws| == 1 {
      assert FirstSpace(s) == |s|;
    } else {
      var rest := Strings.Join(ws[1..], " ");
      assert s == ws[0] + " " + rest;
      JoinStartsWithWord(ws[1..]);
      SplitAfterWord(ws[0], rest);
      SplitJoined(ws[1..]);
      HeadAndTail(ws);
    }
  }

  lemma HeadAndTail<T>(xs: seq<T>)
    requires xs != []
    ensures [xs[0]] + xs[1..] == xs
  {
  }

  lemma JoinStartsWithWord(ws: seq<string>)
    requires ws != [] && forall k :: 0 <= k < |ws| ==> IsWord(ws[k])
    ensures var s := Strings.Join(ws, " ");
      s != [] && !Strings.IsSpace(s[0])
  {
    var s := Strings.Join(ws, " ");
    assert IsWord(ws[0]);
    if |ws| > 1 {
      assert s == ws[0] + " " + Strings.Join(ws[1..], " ");
    }
    assert s[0] == ws[0][0];
  }

  lemma {:induction false} JoinEndsWithWord(ws: seq<string>)
    requires ws != [] && forall k :: 0 <= k < |ws| ==> IsWord(ws[k])
    ensures var s := Strings.Join(ws, " ");
      s != [] && !Strings.IsSpace(s[|s| - 1])
    decreases |ws|
  {
    if |ws| > 1 {
      JoinEndsWithWord(ws[1..]);
    }
  }

  /** The count is the number of words: text made of `n` words separated
      by single spaces counts `n`. */
  lemma WordCountOfWords(ws: seq<string>)
    requires ws != [] && forall k :: 0 <= k < |ws| ==> IsWord(ws[k])
    ensures WordCount(Strings.Join(ws, " ")) == |ws|
  {
    var s := Strings.Join(ws, " ");
    JoinStartsWithWord(ws);
    JoinEndsWithWord(ws);
    CountUnpadded(s);
    SplitJoined(ws);
    assert forall k :: 0 <= k < |ws| ==> ws[k] != [];
  }

  /** Text with no whitespace at either end is counted untrimmed. */
  lemma CountUnpadded(s: string)
    requires s == [] || (!Strings.IsSpace(s[0]) && !Strings.IsSpace(s[|s| - 1]))
    ensures WordCount(s) == |NonEmpty(SplitOnSpaces(s))|
  {
    Strings.TrimUnpadded(s);
  }

  /** Empty or blank text has no words. */
  lemma BlankHasNoWords(text: string)
    requires forall i :: 0 <= i < |text| ==> Strings.IsSpace(text[i])
    ensures WordCount(text) == 0
  {
    var t := Strings.Trim(text);
    assert t == [];
    assert SplitOnSpaces([]) == [[]];
  }

  /** `charCount`: the length, and the length without whitespace. */
  datatype CharCounts = CharCounts(withSpaces: nat, withoutSpaces: nat)

  function CharCount(text: string): (r: CharCounts)
    ensures r.withSpaces == |text|
    ensures r.withoutSpaces <= r.withSpaces
    ensures r.withoutSpaces == r.withSpaces <==> forall i :: 0 <= i < |text| ==> !Strings.IsSpace(text[i])
  {
    var kept := Strings.Keep(text, c => !Strings.IsSpace(c));
    KeepDropsSpace(text);
    CharCounts(|text|, |kept|)
  }

  /** Removing whitespace shortens text that has any. */
  lemma {:induction false} KeepDropsSpace(s: string)
    ensures (exists i :: 0 <= i < |s| && Strings.IsSpace(s[i])) ==> |Strings.Keep(s, c => !Strings.IsSpace(c))| < |s|
  {
    if s != [] {
      KeepDropsSpace(s[1..]);
      if !Strings.IsSpace(s[0]) {
        if i :| 0 <= i < |s| && Strings.IsSpace(s[i]) {
          assert Strings.IsSpace(s[1..][i - 1]);
        }
      }
    }
  }

  // ---------------------------------------------------------------------
  // Reverse and truncate

  /** `text.split("").reverse().join("")`. */
  function Reverse(s: string): (r: string)
    ensures |r| == |s|
    ensures forall i :: 0 <= i < |s| ==> r[i] == s[|s| - 1 - i]
  {
    if s == [] then [] else Reverse(s[1..]) + [s[0]]
  }

  /** Reversing twice gives the text back. */
  lemma ReverseInvolution(s: string)
    ensures Reverse(Reverse(s)) == s
  {
    var r := Reverse(Reverse(s));
    assert forall i :: 0 <= i < |s| ==> r[i] == s[i];
  }

  /** `text.length > maxLength ? text.substring(0, maxLength) + "..." : text`,
      where `substring` clamps a negative end to 0. */
  function Truncate(text: string, maxLength: int): (r: string)
    ensures |text| <= maxLength ==> r == text
    ensures |text| > maxLength ==>
      var kept := if maxLength < 0 then 0 else maxLength;
      |r| == kept + 3 && r[..kept] == text[..kept] && r[kept..] == "..."
  {
    if |text| > maxLength then
      text[..if maxLength < 0 then 0 else maxLength] + "..."
    else text
  }

  // ---------------------------------------------------------------------
  // Slugs

  /** `\w`: ASCII letters, digits and `_`. */
  predicate IsWordChar(c: char) {
    ('A' <= c <= 'Z') || ('a' <= c <= 'z') || ('0' <= c <= '9') || c == '_'
  }

  /** What a slug is made of: lower-case word characters and `-`. */
  predicate IsSlugChar(c: char) {
    ('a' <= c <= 'z') || ('0' <= c <= '9') || c == '_' || c == '-'
  }

  function LowerChar(c: char): char {
    if 'A' <= c <= 'Z' then (c as int + 32) as char else c
  }

  /** `toLowerCase` on ASCII letters; every other character is kept. */
  function ToLower(s: string): (r: string)
    ensures |r| == |s|
    ensures forall i :: 0 <= i < |r| ==> !('A' <= r[i] <= 'Z')
    ensures forall i :: 0 <= i < |r| && !('A' <= s[i] <= 'Z') ==> r[i] == s[i]
    ensures SameLetters(r, s)
  {
    seq(|s|, i requires 0 <= i < |s| => LowerChar(s[i]))
  }

  function UpperChar(c: char): char {
    if 'a' <= c <= 'z' then (c as int - 32) as char else c
  }

  predicate IsAsciiLetter(c: char) {
    ('A' <= c <= 'Z') || ('a' <= c <= 'z')
  }

  /** `toUpperCase` on ASCII letters; every other character is kept. */
  function ToUpper(s: string): (r: string)
    ensures |r| == |s|
    ensures forall i :: 0 <= i < |r| ==> !('a' <= r[i] <= 'z')
    ensures SameLetters(r, s)
  {
    seq(|s|, i requires 0 <= i < |s| => UpperChar(s[i]))
  }

  /** `r` is `s` with only the case of ASCII letters changed. */
  ghost predicate SameLetters(r: string, s: string) {
    |r| == |s| &&
    forall i :: 0 <= i < |r| ==> LowerChar(r[i]) == LowerChar(s[i]) && (!IsAsciiLetter(s[i]) ==> r[i] == s[i])
  }

  lemma SameLettersConcat(a: string, b: string, x: string, y: string)
    requires SameLetters(a, x) && SameLetters(b, y)
    ensures SameLetters(a + b, x + y)
  {
    forall i | 0 <= i < |a + b|
      ensures LowerChar((a + b)[i]) == LowerChar((x + y)[i])
      ensures !IsAsciiLetter((x + y)[i]) ==> (a + b)[i] == (x + y)[i]
    {
      if i >= |a| {
        assert (a + b)[i] == b[i - |a|] && (x + y)[i] == y[i - |a|];
      }
    }
  }

  /** `titleCase`: every match of `\w\S*` (a word character and the
      non-whitespace after it) has its first character upper-cased and the
      rest lower-cased. Only the case of ASCII letters changes. */
  function TitleCase(s: string): (r: string)
    ensures SameLetters(r, s)
    ensures s != [] && IsWordChar(s[0]) ==> r[0] == UpperChar(s[0])
    decreases |s|
  {
    if s == [] then []
    else if IsWordChar(s[0]) then
      var k := FirstSpace(s);
      var rest := TitleCase(s[k..]);
      var lower := ToLower(s[1..k]);
      CapitalisedSameLetters(s, k, lower, rest);
      [UpperChar(s[0])] + lower + rest
    else
      var rest := TitleCase(s[1..]);
      KeptSameLetters(s, rest);
      [s[0]] + rest
  }

  /** A capital, a lower-cased run and a recased rest differ from the text
      only in the case of letters. */
  lemma CapitalisedSameLetters(s: string, k: nat, lower: string, rest: string)
    requires 1 <= k <= |s|
    requires SameLetters(lower, s[1..k]) && SameLetters(rest, s[k..])
    ensures SameLetters([UpperChar(s[0])] + lower + rest, s)
  {
    SameLettersConcat([UpperChar(s[0])], lower, [s[0]], s[1..k]);
    SameLettersConcat([UpperChar(s[0])] + lower, rest, [s[0]] + s[1..k], s[k..]);
    assert [s[0]] + s[1..k] + s[k..] == s;
  }

  lemma KeptSameLetters(s: string, rest: string)
    requires s != [] && SameLetters(rest, s[1..])
    ensures SameLetters([s[0]] + rest, s)
  {
    SameLettersConcat([s[0]], rest, [s[0]], s[1..]);
    assert [s[0]] + s[1..] == s;
  }

  /** Title-casing works position by position: a word character at the
      start or right after whitespace becomes a capital, and a
      non-whitespace character right after a word character is
      lower-cased. */
  lemma {:induction false} TitleCaseAt(s: string, i: nat)
    requires i < |s|
    ensures (i == 0 || Strings.IsSpace(s[i - 1])) && IsWordChar(s[i]) ==> TitleCase(s)[i] == UpperChar(s[i])
    ensures i > 0 && IsWordChar(s[i - 1]) && !Strings.IsSpace(s[i]) ==> TitleCase(s)[i] == LowerChar(s[i])
    decreases |s|
  {
    var r := TitleCase(s);
    if IsWordChar(s[0]) {
      var k := FirstSpace(s);
      var rest := TitleCase(s[k..]);
      var lower := ToLower(s[1..k]);
      assert r == [UpperChar(s[0])] + lower + rest;
      if 0 < i < k {
        assert r[i] == lower[i - 1] && s[1..k][i - 1] == s[i];
      } else if i > k {
        TitleCaseAt(s[k..], i - k);
        assert r[i] == rest[i - k] && s[k..][i - k] == s[i] && s[k..][i - k - 1] == s[i - 1];
      }
    } else if i > 0 {
      var rest := TitleCase(s[1..]);
      assert r == [s[0]] + rest;
      TitleCaseAt(s[1..], i - 1);
      assert r[i] == rest[i - 1] && s[1..][i - 1] == s[i];
      assert i > 1 ==> s[1..][i - 2] == s[i - 1];
    }
  }

  /** After title-casing, every word starts with a capital and goes on in
      lower case. */
  lemma TitleCaseWord(w: string)
    requires IsWord(w) && IsWordChar(w[0])
    ensures TitleCase(w) == [UpperChar(w[0])] + ToLower(w[1..])
  {
    assert FirstSpace(w) == |w|;
    assert w[|w|..] == [] && w[1..|w|] == w[1..];
    assert TitleCase(w) == [UpperChar(w[0])] + ToLower(w[1..|w|]) + TitleCase(w[|w|..]);
  }

  predicate NotUpperCase(c: char) {
    !('A' <= c <= 'Z')
  }

  predicate IsDash(c: char) {
    c == '-'
  }

  /** `slugify`: lower case, characters other than word characters,
      whitespace and `-` dropped, whitespace runs to `-`, `-` runs to one
      `-`, then trimmed. The slug is made of lower-case word characters and
      single dashes. */
  function Slugify(text: string): (r: string)
    ensures forall i :: 0 <= i < |r| ==> IsSlugChar(r[i])
    ensures forall i :: 0 <= i < |r| - 1 ==> !(r[i] == '-' && r[i + 1] == '-')
  {
    var kept := Strings.Keep(ToLower(text), c => IsWordChar(c) || Strings.IsSpace(c) || c == '-');
    var dashed := Strings.CollapseRuns(kept, Strings.IsSpace, '-');
    var single := Strings.CollapseRuns(dashed, IsDash, '-');
    SlugChars(text, kept, dashed, single);
    Strings.Trim(single)
  }

  lemma SlugChars(text: string, kept: string, dashed: string, single: string)
    requires kept == Strings.Keep(ToLower(text), c => IsWordChar(c) || Strings.IsSpace(c) || c == '-')
    requires dashed == Strings.CollapseRuns(kept, Strings.IsSpace, '-')
    requires single == Strings.CollapseRuns(dashed, IsDash, '-')
    ensures forall i :: 0 <= i < |single| ==> IsSlugChar(single[i])
    ensures Strings.Trim(single) == single
    ensures Strings.NoAdjacent(single, IsDash)
  {
    var lower := ToLower(text);
    Strings.KeepKeepsClass(lower, c => IsWordChar(c) || Strings.IsSpace(c) || c == '-', NotUpperCase);
    forall i | 0 <= i < |kept| ensures IsSlugChar(kept[i]) || Strings.IsSpace(kept[i]) {
      assert NotUpperCase(kept[i]);
    }
    Strings.CollapseKeepsClass(kept, Strings.IsSpace, '-', IsSlugChar);
    Strings.CollapseKeepsClass(dashed, IsDash, '-', IsSlugChar);
  }

  /** Whitespace at the start of the text becomes a dash before the trim,
      so the trim does not remove it and the slug starts with `-`. */
  lemma SlugifyLeadingSpace(text: string)
    requires text != [] && Strings.IsSpace(text[0])
    ensures var r := Slugify(text); r != [] && r[0] == '-'
  {
    var lower := ToLower(text);
    var kept := Strings.Keep(lower, c => IsWordChar(c) || Strings.IsSpace(c) || c == '-');
    assert lower[0] == text[0];
    assert kept == [lower[0]] + Strings.Keep(lower[1..], c => IsWordChar(c) || Strings.IsSpace(c) || c == '-');
    var dashed := Strings.CollapseRuns(kept, Strings.IsSpace, '-');
    var single := Strings.CollapseRuns(dashed, IsDash, '-');
    SlugChars(text, kept, dashed, single);
  }

  // ---------------------------------------------------------------------
  // The tool

  datatype Operation =
    | WordCountOp | CharCountOp | UppercaseOp | LowercaseOp | TitleCaseOp | ReverseOp
    | Base64EncodeOp | Base64DecodeOp | UrlEncodeOp | UrlDecodeOp | SlugifyOp | TruncateOp

  /** The tool's answer: a count, the character counts, a text, or the
      failure of a host function that threw (its message is the host's). */
  datatype Answer =
    | Count(result: nat)
    | Characters(counts: CharCounts)
    | Text(text: string)
    | Failure

  function OfOption(r: Option<string>): Answer {
    match r
    case Some(t) => Text(t)
    case None => Failure
  }

  /** `execute`: the operation on the text, `maxLength` defaulting to 100. */
  function Execute(op: Operation, text: string, maxLength: Option<int>): (a: Answer)
    ensures op == Base64EncodeOp ==> (a.Failure? <==> !Base64.IsLatin1(text))
    ensures op in {WordCountOp, CharCountOp, UppercaseOp, LowercaseOp, TitleCaseOp, ReverseOp, UrlEncodeOp, SlugifyOp, TruncateOp} ==> !a.Failure?
  {
    match op
    case WordCountOp => Count(WordCount(text))
    case CharCountOp => Characters(CharCount(text))
    case UppercaseOp => Text(ToUpper(text))
    case LowercaseOp => Text(ToLower(text))
    case TitleCaseOp => Text(TitleCase(text))
    case ReverseOp => Text(Reverse(text))
    case Base64EncodeOp => OfOption(Base64.Btoa(text))
    case Base64DecodeOp => OfOption(Base64.Atob(text))
    case UrlEncodeOp => Text(Uri.EncodeURIComponent(text))
    case UrlDecodeOp => OfOption(Uri.DecodeURIComponent(text))
    case SlugifyOp => Text(Slugify(text))
    case TruncateOp => Text(Truncate(text, maxLength.GetOr(DefaultMaxLength)))
  }

  /** The codec operations answer with their host function's result. */
  lemma ExecuteBase64Encode(text: string, maxLength: Option<int>)
    ensures Execute(Base64EncodeOp, text, maxLength) == OfOption(Base64.Btoa(text))
  {
  }

  lemma ExecuteBase64Decode(text: string, maxLength: Option<int>)
    ensures Execute(Base64DecodeOp, text, maxLength) == OfOption(Base64.Atob(text))
  {
  }

  lemma ExecuteUrlEncode(text: string, maxLength: Option<int>)
    ensures Execute(UrlEncodeOp, text, maxLength) == Text(Uri.EncodeURIComponent(text))
  {
  }

  lemma ExecuteUrlDecode(text: string, maxLength: Option<int>)
    ensures Execute(UrlDecodeOp, text, maxLength) == OfOption(Uri.DecodeURIComponent(text))
  {
  }

  /** Decoding the tool's base64 encoding of a Latin-1 text gives the text. */
  lemma Base64RoundTrip(text: string, m1: Option<int>, m2: Option<int>)
    requires Base64.IsLatin1(text)
    ensures var encoded := Execute(Base64EncodeOp, text, m1);
      encoded.Text? && Execute(Base64DecodeOp, encoded.text, m2) == Text(text)
  {
    var e := Base64.Btoa(text);
    ExecuteBase64Encode(text, m1);
    ExecuteBase64Decode(e.value, m2);
    Base64.AtobBtoa(text);
  }

  /** Decoding the tool's URL encoding of any text gives the text. */
  lemma UrlRoundTrip(text: string, m1: Option<int>, m2: Option<int>)
    ensures var encoded := Execute(UrlEncodeOp, text, m1);
      encoded.Text? && Execute(UrlDecodeOp, encoded.text, m2) == Text(text)
  {
    ExecuteUrlEncode(text, m1);
    ExecuteUrlDecode(Uri.EncodeURIComponent(text), m2);
    Uri.DecodeEncode(text);
  }
}
