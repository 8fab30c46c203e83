/** The JavaScript string operations the source chains together: `includes`,
    `startsWith`, `indexOf`, `replace` with a literal pattern, `trim`, and the
    run-collapsing regular-expression replacements (`/\s+/g`, `/-+/g`).
    Strings are sequences of Unicode scalar values. */
module Strings {

  /** JavaScript's `\s` class, which is also the set of characters `trim`
      removes: the ECMAScript WhiteSpace and LineTerminator code points. */
  predicate IsSpace(c: char) {
    var n := c as int;
    n == 0x09 || n == 0x0A || n == 0x0B || n == 0x0C || n == 0x0D || n == 0x20 ||
    n == 0xA0 || n == 0x1680 || (0x2000 <= n <= 0x200A) || n == 0x2028 ||
    n == 0x2029 || n == 0x202F || n == 0x205F || n == 0x3000 || n == 0xFEFF
  }

  predicate StartsWith(s: string, prefix: string) {
    |prefix| <= |s| && s[..|prefix|] == prefix
  }

  /** `pat` occurs in `s` starting at index `i`. */
  ghost predicate OccursAt(s: string, pat: string, i: int) {
    0 <= i && i + |pat| <= |s| && s[i..i + |pat|] == pat
  }

  lemma ShiftOccurrence(s: string, pat: string)
    requires s != [] && !StartsWith(s, pat)
    ensures (exists i :: OccursAt(s, pat, i)) <==> (exists i :: OccursAt(s[1..], pat, i))
  {
    if i :| OccursAt(s, pat, i) {
      assert i != 0;
      assert s[1..][i - 1..i - 1 + |pat|] == s[i..i + |pat|];
      assert OccursAt(s[1..], pat, i - 1);
    }
    if i :| OccursAt(s[1..], pat, i) {
      assert s[1..][i..i + |pat|] == s[i + 1..i + 1 + |pat|];
      assert OccursAt(s, pat, i + 1);
    }
  }

  /** `s.includes(pat)`: some occurrence of `pat` in `s`. */
  function Contains(s: string, pat: string): (r: bool)
    ensures r <==> exists i :: OccursAt(s, pat, i)
    decreases |s|
  {
    if StartsWith(s, pat) then
      assert OccursAt(s, pat, 0);
      true
    else if s == [] then
      false
    else
      ShiftOccurrence(s, pat);
      Contains(s[1..], pat)
  }

  /** The index of the first `c` in `s`, or `|s|` when there is none. */
  function FirstIndex(s: string, c: char): (r: nat)
    ensures r <= |s|
    ensures r < |s| ==> s[r] == c
    ensures forall j :: 0 <= j < r ==> s[j] != c
  {
    if s == [] then 0
    else if s[0] == c then 0
    else 1 + FirstIndex(s[1..], c)
  }

  /** `s.split(c)[0]`: everything before the first `c`. */
  function Before(s: string, c: char): (r: string)
    ensures StartsWith(s, r)
    ensures forall j :: 0 <= j < |r| ==> r[j] != c
    ensures |r| < |s| ==> s[|r|] == c
  {
    s[..FirstIndex(s, c)]
  }

  /** `s.split(c)`: the pieces between the occurrences of `c`, always at
      least one. */
  function Split(s: string, c: char): (r: seq<string>)
    ensures |r| >= 1
    ensures forall k, j :: 0 <= k < |r| && 0 <= j < |r[k]| ==> r[k][j] != c
    ensures Join(r, [c]) == s
    decreases |s|
  {
    var k := FirstIndex(s, c);
    if k == |s| then [s]
    else
      var rest := Split(s[k + 1..], c);
      var r := [s[..k]] + rest;
      assert r[0] == s[..k] && r[1..] == rest;
      assert s == s[..k] + [c] + s[k + 1..];
      r
  }

  /** `s.replace(/pat/g, rep)` for a literal, non-empty pattern: scans from
      the left, replacing non-overlapping occurrences. */
  function ReplaceAll(s: string, pat: string, rep: string): (r: string)
    requires pat != []
    ensures (forall i :: 0 <= i < |s| ==> s[i] != pat[0]) ==> r == s
    decreases |s|
  {
    if |s| < |pat| then s
    else if s[..|pat|] == pat then rep + ReplaceAll(s[|pat|..], pat, rep)
    else [s[0]] + ReplaceAll(s[1..], pat, rep)
  }

  /** Text without the pattern's first character passes through a
      replacement unchanged. */
  lemma {:induction false} ReplaceAllAfter(a: string, rest: string, pat: string, rep: string)
    requires pat != [] && forall i :: 0 <= i < |a| ==> a[i] != pat[0]
    ensures ReplaceAll(a + rest, pat, rep) == a + ReplaceAll(rest, pat, rep)
    decreases |a|
  {
    if a != [] {
      ConsParts(a, rest, ReplaceAll(rest, pat, rep));
      ReplaceAllOfOther(a + rest, pat, rep);
      ReplaceAllAfter(a[1..], rest, pat, rep);
    } else {
      assert a + rest == rest;
    }
  }

  lemma ReplaceAllOfOther(s: string, pat: string, rep: string)
    requires pat != [] && s != [] && s[0] != pat[0]
    ensures ReplaceAll(s, pat, rep) == [s[0]] + ReplaceAll(s[1..], pat, rep)
  {
    if |s| < |pat| {
      assert ReplaceAll(s[1..], pat, rep) == s[1..];
      assert [s[0]] + s[1..] == s;
    } else {
      assert s[..|pat|][0] == s[0];
    }
  }

  /** `s.replace(pat, rep)` for a literal pattern: only the first occurrence
      is replaced. */
  function ReplaceFirst(s: string, pat: string, rep: string): (r: string)
    ensures StartsWith(s, pat) ==> r == rep + s[|pat|..]
    ensures !Contains(s, pat) ==> r == s
    decreases |s|
  {
    if StartsWith(s, pat) then rep + s[|pat|..]
    else if s == [] then s
    else [s[0]] + ReplaceFirst(s[1..], pat, rep)
  }

  /** `s.replace(pat, rep)` replaces the first occurrence, wherever it is. */
  lemma {:induction false} ReplaceFirstAt(s: string, pat: string, rep: string, i: nat)
    requires OccursAt(s, pat, i)
    requires forall j :: 0 <= j < i ==> !OccursAt(s, pat, j)
    ensures ReplaceFirst(s, pat, rep) == s[..i] + rep + s[i + |pat|..]
    decreases i
  {
    if i == 0 {
      ReplaceFirstAtStart(s, pat, rep);
    } else {
      OccurrenceInTail(s, pat, i);
      ReplaceFirstAt(s[1..], pat, rep, i - 1);
      ReplaceFirstOfOther(s, pat, rep);
      ShiftSlices(s, i, |pat|, rep);
    }
  }

  lemma ReplaceFirstAtStart(s: string, pat: string, rep: string)
    requires OccursAt(s, pat, 0)
    ensures ReplaceFirst(s, pat, rep) == s[..0] + rep + s[0 + |pat|..]
  {
    assert s[..|pat|] == s[0..|pat|];
    assert s[..0] + rep == rep;
  }

  lemma ReplaceFirstOfOther(s: string, pat: string, rep: string)
    requires s != [] && !OccursAt(s, pat, 0)
    ensures ReplaceFirst(s, pat, rep) == [s[0]] + ReplaceFirst(s[1..], pat, rep)
  {
    if |pat| <= |s| {
      assert s[..|pat|] == s[0..|pat|];
    }
  }

  /** Slices of the tail, one index on, with the first element put back. */
  lemma ShiftSlices<T>(s: seq<T>, i: nat, n: nat, mid: seq<T>)
    requires 0 < i && i + n <= |s|
    ensures [s[0]] + (s[1..][..i - 1] + mid + s[1..][i - 1 + n..]) == s[..i] + mid + s[i + n..]
  {
    assert [s[0]] + s[1..][..i - 1] == s[..i];
    assert s[1..][i - 1 + n..] == s[i + n..];
  }

  /** The first occurrence in `s`, past index 0, is the first one in its
      tail, one index earlier. */
  lemma OccurrenceInTail(s: string, pat: string, i: nat)
    requires 0 < i && OccursAt(s, pat, i)
    requires forall j :: 0 <= j < i ==> !OccursAt(s, pat, j)
    ensures OccursAt(s[1..], pat, i - 1)
    ensures forall j :: 0 <= j < i - 1 ==> !OccursAt(s[1..], pat, j)
  {
    var t := s[1..];
    assert t[i - 1..i - 1 + |pat|] == s[i..i + |pat|];
    forall j | 0 <= j < i - 1 ensures !OccursAt(t, pat, j) {
      assert !OccursAt(s, pat, j + 1);
      if j + |pat| <= |t| {
        assert t[j..j + |pat|] == s[j + 1..j + 1 + |pat|];
      }
    }
  }

  /** Drops the longest prefix whose characters all satisfy `p`. */
  function DropWhile(s: string, p: char -> bool): (r: string)
    ensures |r| <= |s| && r == s[|s| - |r|..]
    ensures r == [] || !p(r[0])
    ensures forall i :: 0 <= i < |s| - |r| ==> p(s[i])
    ensures s != [] && p(s[0]) ==> |r| < |s|
  {
    if s != [] && p(s[0]) then DropWhile(s[1..], p) else s
  }

  /** Drops the longest suffix whose characters all satisfy `p`. */
  function DropWhileEnd(s: string, p: char -> bool): (r: string)
    ensures |r| <= |s| && r == s[..|r|]
    ensures r == [] || !p(r[|r| - 1])
    ensures forall i :: |r| <= i < |s| ==> p(s[i])
  {
    if s != [] && p(s[|s| - 1]) then DropWhileEnd(s[..|s| - 1], p) else s
  }

  /** No two neighbouring characters both satisfy `p`. */
  ghost predicate NoAdjacent(s: string, p: char -> bool) {
    forall i :: 0 <= i < |s| - 1 ==> !(p(s[i]) && p(s[i + 1]))
  }

  /** `s.trim()`. */
  function Trim(s: string): (r: string)
    ensures r == [] || (!IsSpace(r[0]) && !IsSpace(r[|r| - 1]))
    ensures (forall i :: 0 <= i < |s| ==> !IsSpace(s[i])) ==> r == s
  {
    DropWhileEnd(DropWhile(s, IsSpace), IsSpace)
  }

  ghost predicate AllSpace(s: string) {
    forall i :: 0 <= i < |s| ==> IsSpace(s[i])
  }

  /** Trimming removes whitespace at the two ends and nothing else: the
      text is the trimmed text between two runs of whitespace. */
  lemma TrimRemovesOuterSpace(s: string)
    ensures exists lead, trail :: s == lead + Trim(s) + trail && AllSpace(lead) && AllSpace(trail)
  {
    var t := DropWhile(s, IsSpace);
    var lead := LeadingRun(s, t);
    var trail := TrailingRun(t, Trim(s));
    Regroup(lead, Trim(s), trail, [], []);
  }

  lemma LeadingRun(s: string, t: string) returns (lead: string)
    requires t == DropWhile(s, IsSpace)
    ensures s == lead + t && AllSpace(lead)
  {
    lead := s[..|s| - |t|];
    forall i | 0 <= i < |lead| ensures IsSpace(lead[i]) {
      assert lead[i] == s[i];
    }
  }

  lemma TrailingRun(t: string, r: string) returns (trail: string)
    requires r == DropWhileEnd(t, IsSpace)
    ensures t == r + trail && AllSpace(trail)
  {
    trail := t[|r|..];
    forall i | 0 <= i < |trail| ensures IsSpace(trail[i]) {
      assert trail[i] == t[|r| + i];
    }
  }

  /** Trimming keeps whitespace runs no longer than they were. */
  lemma TrimKeepsNoAdjacent(s: string)
    requires NoAdjacent(s, IsSpace)
    ensures NoAdjacent(Trim(s), IsSpace)
  {
    var t := DropWhile(s, IsSpace);
    NoAdjacentSlice(s, |s| - |t|, |s|);
    assert s[|s| - |t|..|s|] == t;
    NoAdjacentSlice(t, 0, |Trim(s)|);
    assert t[0..|Trim(s)|] == Trim(s);
  }

  lemma NoAdjacentSlice(s: string, a: nat, b: nat)
    requires a <= b <= |s| && NoAdjacent(s, IsSpace)
    ensures NoAdjacent(s[a..b], IsSpace)
  {
    forall i | 0 <= i < b - a - 1 ensures !(IsSpace(s[a..b][i]) && IsSpace(s[a..b][i + 1])) {
      assert s[a..b][i] == s[a + i] && s[a..b][i + 1] == s[a + i + 1];
    }
  }

  /** `s.replace(/P+/g, rep)` where `P` is the character class `p`: every
      maximal run of `p`-characters becomes the single character `rep`. */
  function CollapseRuns(s: string, p: char -> bool, rep: char): (r: string)
    ensures (r == []) <==> (s == [])
    ensures (forall i :: 0 <= i < |s| ==> !p(s[i])) ==> r == s
    ensures s != [] && !p(s[0]) ==> r[0] == s[0]
    ensures s != [] && p(s[0]) ==> r[0] == rep
    ensures p(rep) ==> NoAdjacent(r, p)
    decreases |s|
  {
    if s == [] then []
    else if p(s[0]) then
      var rest := CollapseRuns(DropWhile(s, p), p, rep);
      assert forall i :: 0 < i < |rest| + 1 ==> ([rep] + rest)[i] == rest[i - 1];
      [rep] + rest
    else
      var rest := CollapseRuns(s[1..], p, rep);
      assert forall i :: 0 < i < |rest| + 1 ==> ([s[0]] + rest)[i] == rest[i - 1];
      assert (forall i :: 0 <= i < |s| ==> !p(s[i])) ==> forall i :: 0 <= i < |s| - 1 ==> !p(s[1..][i]);
      assert [s[0]] + s[1..] == s;
      [s[0]] + rest
  }

  /** Dropping a run of `p`-characters stops where the run ends. */
  lemma {:induction false} DropWhileRun(d: string, rest: string, p: char -> bool)
    requires forall i :: 0 <= i < |d| ==> p(d[i])
    requires rest == [] || !p(rest[0])
    ensures DropWhile(d + rest, p) == rest
    decreases |d|
  {
    if d == [] {
      assert d + rest == rest;
    } else {
      assert (d + rest)[1..] == d[1..] + rest;
      DropWhileRun(d[1..], rest, p);
    }
  }

  /** Collapsing keeps the characters outside `p` and turns each maximal
      run of `p`-characters into one `rep`: text made of such characters,
      then a run, then text not starting with `p`, collapses to those
      characters, `rep` and the collapsed rest. */
  lemma CollapseRunsAt(w: string, d: string, rest: string, p: char -> bool, rep: char)
    requires forall i :: 0 <= i < |w| ==> !p(w[i])
    requires d != [] && forall i :: 0 <= i < |d| ==> p(d[i])
    requires rest == [] || !p(rest[0])
    ensures CollapseRuns(w + d + rest, p, rep) == w + [rep] + CollapseRuns(rest, p, rep)
  {
    var t := d + rest;
    CollapseRunsAfter(w, t, p, rep);
    ConsParts(d, rest, []);
    DropWhileRun(d, rest, p);
    CollapseRunsOfRun(t, p, rep);
    Regroup(w, d, rest, [], []);
    Regroup(w, [rep], CollapseRuns(rest, p, rep), [], []);
  }

  /** Characters outside `p` are kept in front of what follows them. */
  lemma {:induction false} CollapseRunsAfter(w: string, t: string, p: char -> bool, rep: char)
    requires forall i :: 0 <= i < |w| ==> !p(w[i])
    ensures CollapseRuns(w + t, p, rep) == w + CollapseRuns(t, p, rep)
    decreases |w|
  {
    if w != [] {
      ConsParts(w, t, CollapseRuns(t, p, rep));
      CollapseRunsOfOther(w + t, p, rep);
      CollapseRunsAfter(w[1..], t, p, rep);
    } else {
      assert w + t == t;
    }
  }

  /** A non-empty prefix splits into its first element and the rest. */
  lemma ConsParts<T>(a: seq<T>, t: seq<T>, u: seq<T>)
    requires a != []
    ensures (a + t)[0] == a[0] && (a + t)[1..] == a[1..] + t
    ensures [a[0]] + (a[1..] + u) == a + u
  {
    assert [a[0]] + a[1..] == a;
  }

  lemma Regroup<T>(a: seq<T>, b: seq<T>, c: seq<T>, d: seq<T>, e: seq<T>)
    ensures a + (b + c + d + e) == a + b + c + d + e
    ensures a + (b + c) == a + b + c
  {
  }

  lemma CollapseRunsOfRun(s: string, p: char -> bool, rep: char)
    requires s != [] && p(s[0])
    ensures CollapseRuns(s, p, rep) == [rep] + CollapseRuns(DropWhile(s, p), p, rep)
  {
  }

  lemma CollapseRunsOfOther(s: string, p: char -> bool, rep: char)
    requires s != [] && !p(s[0])
    ensures CollapseRuns(s, p, rep) == [s[0]] + CollapseRuns(s[1..], p, rep)
  {
  }

  /** A suffix of a string whose characters are all in `p` or `q`. */
  lemma SuffixInEither(s: string, k: nat, p: char -> bool, q: char -> bool)
    requires k <= |s|
    requires forall i :: 0 <= i < |s| ==> p(s[i]) || q(s[i])
    ensures forall i :: 0 <= i < |s| - k ==> p(s[k..][i]) || q(s[k..][i])
  {
    forall i | 0 <= i < |s| - k ensures p(s[k..][i]) || q(s[k..][i]) {
      assert s[k..][i] == s[k + i];
    }
  }

  /** Collapsing keeps any character class `q` that holds of the
      replacement and of every character of the original outside `p`. */
  lemma {:induction false} CollapseKeepsClass(s: string, p: char -> bool, rep: char, q: char -> bool)
    requires q(rep)
    requires forall i :: 0 <= i < |s| ==> p(s[i]) || q(s[i])
    ensures forall i :: 0 <= i < |CollapseRuns(s, p, rep)| ==> q(CollapseRuns(s, p, rep)[i])
    decreases |s|
  {
    if s != [] {
      var rest := if p(s[0]) then DropWhile(s, p) else s[1..];
      SuffixInEither(s, |s| - |rest|, p, q);
      CollapseKeepsClass(rest, p, rep, q);
      var c := CollapseRuns(rest, p, rep);
      var r := [if p(s[0]) then rep else s[0]] + c;
      assert CollapseRuns(s, p, rep) == r;
      forall i | 0 < i < |r| ensures q(r[i]) {
        assert r[i] == c[i - 1];
      }
    } else {
      assert CollapseRuns(s, p, rep) == [];
    }
  }

  /** The characters of `s` that satisfy `keep`, in order
      (`s.replace(/[^K]/g, "")`). */
  function Keep(s: string, keep: char -> bool): (r: string)
    ensures |r| <= |s|
    ensures forall i :: 0 <= i < |r| ==> keep(r[i])
    ensures (forall i :: 0 <= i < |s| ==> keep(s[i])) ==> r == s
    ensures forall i :: 0 <= i < |s| && keep(s[i]) ==> s[i] in r
  {
    if s == [] then []
    else if keep(s[0]) then [s[0]] + Keep(s[1..], keep)
    else Keep(s[1..], keep)
  }

  /** Keeping works piece by piece, so the kept characters stay in their
      order. */
  lemma {:induction false} KeepAppend(a: string, b: string, keep: char -> bool)
    ensures Keep(a + b, keep) == Keep(a, keep) + Keep(b, keep)
    decreases |a|
  {
    if a == [] {
      assert a + b == b;
    } else {
      assert (a + b)[0] == a[0] && (a + b)[1..] == a[1..] + b;
      KeepAppend(a[1..], b, keep);
    }
  }

  /** `xs.join(sep)`. */
  function Join(xs: seq<string>, sep: string): (r: string)
  {
    if xs == [] then []
    else if |xs| == 1 then xs[0]
    else xs[0] + sep + Join(xs[1..], sep)
  }

  /** Keeping characters keeps any class that all of them are in. */
  lemma {:induction false} KeepKeepsClass(s: string, keep: char -> bool, q: char -> bool)
    requires forall i :: 0 <= i < |s| ==> q(s[i])
    ensures forall i :: 0 <= i < |Keep(s, keep)| ==> q(Keep(s, keep)[i])
  {
    if s != [] {
      KeepKeepsClass(s[1..], keep, q);
      var rest := Keep(s[1..], keep);
      assert forall i :: 0 < i <= |rest| ==> ([s[0]] + rest)[i] == rest[i - 1];
    } else {
      assert Keep(s, keep) == [];
    }
  }

  /** Dropping a prefix keeps any class that all characters are in. */
  lemma {:induction false} DropWhileKeepsClass(s: string, p: char -> bool, q: char -> bool)
    requires forall i :: 0 <= i < |s| ==> q(s[i])
    ensures forall i :: 0 <= i < |DropWhile(s, p)| ==> q(DropWhile(s, p)[i])
  {
    if s != [] && p(s[0]) {
      var rest := s[1..];
      assert forall i :: 0 <= i < |rest| ==> rest[i] == s[i + 1];
      DropWhileKeepsClass(rest, p, q);
    } else {
      assert DropWhile(s, p) == s;
    }
  }

  /** Dropping a suffix keeps any class that all characters are in. */
  lemma DropWhileEndKeepsClass(s: string, p: char -> bool, q: char -> bool)
    requires forall i :: 0 <= i < |s| ==> q(s[i])
    ensures forall i :: 0 <= i < |DropWhileEnd(s, p)| ==> q(DropWhileEnd(s, p)[i])
  {
    var t := DropWhileEnd(s, p);
    forall i | 0 <= i < |t| ensures q(t[i]) {
      assert t[i] == s[i];
    }
  }

  /** Trimming keeps any class that all characters are in. */
  lemma TrimKeepsClass(s: string, q: char -> bool)
    requires forall i :: 0 <= i < |s| ==> q(s[i])
    ensures forall i :: 0 <= i < |Trim(s)| ==> q(Trim(s)[i])
  {
    DropWhileKeepsClass(s, IsSpace, q);
    DropWhileEndKeepsClass(DropWhile(s, IsSpace), IsSpace, q);
  }

  /** A plain space, or no whitespace at all. */
  predicate PlainSpaceOrOther(c: char) {
    !IsSpace(c) || c == ' '
  }

  /** `s.replace(/\s+/g, " ").trim()`: no whitespace at either end, never
      two whitespace characters in a row, and every whitespace character
      left is a plain space. */
  lemma CollapseThenTrim(s: string)
    ensures var r := Trim(CollapseRuns(s, IsSpace, ' '));
      && (r == [] || (!IsSpace(r[0]) && !IsSpace(r[|r| - 1])))
      && NoAdjacent(r, IsSpace)
      && (forall i :: 0 <= i < |r| ==> PlainSpaceOrOther(r[i]))
  {
    var c := CollapseRuns(s, IsSpace, ' ');
    CollapseKeepsClass(s, IsSpace, ' ', PlainSpaceOrOther);
    assert forall i :: 0 <= i < |c| ==> PlainSpaceOrOther(c[i]);
    TrimKeepsClass(c, PlainSpaceOrOther);
    TrimKeepsNoAdjacent(c);
    assert forall i :: 0 <= i < |Trim(c)| ==> PlainSpaceOrOther(Trim(c)[i]);
  }

  /** Text with no whitespace at either end is its own trim. */
  lemma TrimUnpadded(s: string)
    requires s == [] || (!IsSpace(s[0]) && !IsSpace(s[|s| - 1]))
    ensures Trim(s) == s
  {
    assert DropWhile(s, IsSpace) == s;
    assert DropWhileEnd(s, IsSpace) == s;
  }
}
