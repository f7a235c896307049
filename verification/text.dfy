/** Character classes and string operations of the JavaScript runtime that the
    views rely on: `trim`, `includes`, `indexOf`, `split` on a character set,
    `replace` of the first occurrence, and the `\s`, `\d` and `.` classes of
    regular expressions. A character here is a Unicode scalar value, where
    JavaScript counts UTF-16 code units: the two differ only for characters
    outside the Basic Multilingual Plane, such as emoji, and no modelled
    result depends on that difference. */
module Text {
  import opened Wrappers

  /** ECMAScript LineTerminator: the characters a regular-expression `.` does
      not match. */
  const LineTerminators: set<char> := {'\n', '\r', '\U{2028}', '\U{2029}'}

  /** ECMAScript WhiteSpace together with LineTerminator: what `\s` matches
      and what `String.prototype.trim` strips (space separators as of
      Unicode 15). */
  const Whitespace: set<char> := LineTerminators + {
    '\t', '\U{000B}', '\U{000C}', ' ', '\U{00A0}', '\U{FEFF}', '\U{1680}',
    '\U{2000}', '\U{2001}', '\U{2002}', '\U{2003}', '\U{2004}', '\U{2005}',
    '\U{2006}', '\U{2007}', '\U{2008}', '\U{2009}', '\U{200A}',
    '\U{202F}', '\U{205F}', '\U{3000}'}

  /** What `\d` matches without the `u` flag. */
  const Digits: set<char> := {'0', '1', '2', '3', '4', '5', '6', '7', '8', '9'}

  predicate AllIn(s: string, cs: set<char>) {
    forall i :: 0 <= i < |s| ==> s[i] in cs
  }

  predicate NoneIn(s: string, cs: set<char>) {
    forall i :: 0 <= i < |s| ==> s[i] !in cs
  }

  /** The end of the longest run of characters from `cs` starting at `i`. */
  function SkipIn(s: string, i: nat, cs: set<char>): (j: nat)
    requires i <= |s|
    ensures i <= j <= |s|
    ensures forall k :: i <= k < j ==> s[k] in cs
    ensures j < |s| ==> s[j] !in cs
    decreases |s| - i
  {
    if i == |s| || s[i] !in cs then i else SkipIn(s, i + 1, cs)
  }

  /** The end of the longest run of characters outside `cs` starting at `i`. */
  function SkipNotIn(s: string, i: nat, cs: set<char>): (j: nat)
    requires i <= |s|
    ensures i <= j <= |s|
    ensures forall k :: i <= k < j ==> s[k] !in cs
    ensures j < |s| ==> s[j] in cs
    decreases |s| - i
  {
    if i == |s| || s[i] in cs then i else SkipNotIn(s, i + 1, cs)
  }

  // ---------------------------------------------------------------- trim

  /** `s` with its leading whitespace removed (what a leading `\s*` eats). */
  function TrimStart(s: string): (r: string)
    ensures |r| <= |s| && r == s[|s| - |r|..]
    ensures AllIn(s[..|s| - |r|], Whitespace)
    ensures r == [] || r[0] !in Whitespace
  {
    s[SkipIn(s, 0, Whitespace)..]
  }

  /** `s` with its trailing whitespace removed. */
  function TrimEnd(s: string): (r: string)
    ensures |r| <= |s| && r == s[..|r|]
    ensures AllIn(s[|r|..], Whitespace)
    ensures r == [] || r[|r| - 1] !in Whitespace
  {
    if |s| > 0 && s[|s| - 1] in Whitespace then
      var r := TrimEnd(s[..|s| - 1]);
      assert s[..|s| - 1][..|r|] == s[..|r|];
      assert s[|r|..] == s[..|s| - 1][|r|..] + [s[|s| - 1]];
      r
    else s
  }

  /** `String.prototype.trim`. */
  function Trim(s: string): (r: string)
    ensures |r| <= |s|
    ensures r == [] || (r[0] !in Whitespace && r[|r| - 1] !in Whitespace)
  {
    TrimEnd(TrimStart(s))
  }

  /** A trimmed string is a slice of the original that neither starts nor
      ends with whitespace, and only whitespace was cut on either side. */
  lemma TrimIsSlice(s: string)
    ensures var r := Trim(s);
      exists i :: 0 <= i <= |s| - |r|
        && s[i..i + |r|] == r
        && AllIn(s[..i], Whitespace)
        && AllIn(s[i + |r|..], Whitespace)
    ensures Trim(s) == [] || (Trim(s)[0] !in Whitespace && Trim(s)[|Trim(s)| - 1] !in Whitespace)
  {
    var t := TrimStart(s);
    var r := TrimEnd(t);
    var i := |s| - |t|;
    assert s[i..i + |r|] == t[..|r|];
    assert s[i + |r|..] == t[|r|..];
  }

  /** Only an all-whitespace string trims to empty: the blank-line test of
      the overview parser. */
  lemma TrimEmptyIffBlank(s: string)
    ensures Trim(s) == [] <==> AllIn(s, Whitespace)
  {
    var t := TrimStart(s);
    if Trim(s) == [] {
      assert s == s[..|s| - |t|] + t;
      assert t == t[..0] + t[0..];
    }
  }

  /** Trimming a string that is already trimmed changes nothing. */
  lemma TrimTrimmed(s: string)
    requires s == [] || (s[0] !in Whitespace && s[|s| - 1] !in Whitespace)
    ensures Trim(s) == s
  {
  }

  /** Whitespace around a string does not survive `trim`. */
  lemma TrimSurrounded(a: string, s: string, b: string)
    requires AllIn(a, Whitespace) && AllIn(b, Whitespace)
    requires s == [] || (s[0] !in Whitespace && s[|s| - 1] !in Whitespace)
    ensures Trim(a + s + b) == s
  {
    var x := a + s + b;
    if s == [] {
      assert AllIn(x, Whitespace);
      TrimEmptyIffBlank(x);
    } else {
      assert SkipIn(x, 0, Whitespace) == |a| by {
        SkipInStops(x, 0, |a|, Whitespace);
      }
      var t := TrimStart(x);
      assert t == s + b;
      TrimEndDropsTail(s, b);
    }
  }

  lemma SkipInStops(s: string, i: nat, k: nat, cs: set<char>)
    requires i <= k < |s|
    requires AllIn(s[i..k], cs) && s[k] !in cs
    ensures SkipIn(s, i, cs) == k
    decreases k - i
  {
    if i < k {
      assert s[i] == s[i..k][0];
      assert s[i + 1..k] == s[i..k][1..];
      SkipInStops(s, i + 1, k, cs);
    }
  }

  lemma TrimEndDropsTail(s: string, b: string)
    requires s != [] && s[|s| - 1] !in Whitespace
    requires AllIn(b, Whitespace)
    ensures TrimEnd(s + b) == s
    decreases |b|
  {
    if b == [] {
      assert s + b == s;
    } else {
      assert (s + b)[..|s + b| - 1] == s + b[..|b| - 1];
      TrimEndDropsTail(s, b[..|b| - 1]);
    }
  }

  /** Trimming cannot introduce characters. */
  lemma TrimKeepsNone(s: string, cs: set<char>)
    requires NoneIn(s, cs)
    ensures NoneIn(Trim(s), cs)
  {
    var t := TrimStart(s);
    assert NoneIn(t, cs) by {
      forall i | 0 <= i < |t| ensures t[i] !in cs {
        assert t[i] == s[|s| - |t| + i];
      }
    }
  }

  // ---------------------------------------------------------- substrings

  /** `w` occurs in `s` starting at index `i`. */
  predicate OccursAt(s: string, w: string, i: int) {
    0 <= i && i + |w| <= |s| && s[i..i + |w|] == w
  }

  /** `String.prototype.includes`. */
  predicate Contains(s: string, w: string) {
    exists i :: 0 <= i <= |s| && OccursAt(s, w, i)
  }

  /** `String.prototype.indexOf(w, from)` for `from` within the string:
      the first occurrence at or after `from`. */
  function IndexOfFrom(s: string, w: string, from: nat): (r: Option<nat>)
    requires from <= |s|
    ensures r.Some? ==> from <= r.value && OccursAt(s, w, r.value)
    ensures r.Some? ==> forall k :: from <= k < r.value ==> !OccursAt(s, w, k)
    ensures r.None? ==> forall k :: from <= k ==> !OccursAt(s, w, k)
    decreases |s| - from
  {
    if OccursAt(s, w, from) then Some(from)
    else if from == |s| then None
    else IndexOfFrom(s, w, from + 1)
  }

  /** `includes` and `indexOf` agree. */
  lemma ContainsIffFound(s: string, w: string)
    ensures Contains(s, w) <==> IndexOfFrom(s, w, 0).Some?
  {
    if IndexOfFrom(s, w, 0).Some? {
      assert OccursAt(s, w, IndexOfFrom(s, w, 0).value);
    }
  }

  /** Where a lazy `.*?` followed by the character `c` stops when it starts
      at `k`: the first `c` at or after `k`, unless a line terminator (which
      `.` cannot consume) comes first. */
  function LazyUntil(s: string, k: nat, c: char): (r: Option<nat>)
    requires k <= |s|
    ensures r.Some? ==> k <= r.value < |s| && s[r.value] == c
    ensures r.Some? ==> NoneIn(s[k..r.value], LineTerminators + {c})
    ensures r.None? ==> forall j :: k <= j < |s| && s[j] == c ==> !NoneIn(s[k..j], LineTerminators)
    decreases |s| - k
  {
    if k == |s| then None
    else if s[k] == c then Some(k)
    else if s[k] in LineTerminators then None
    else
      var r := LazyUntil(s, k + 1, c);
      assert forall j :: k < j <= |s| ==> s[k..j] == [s[k]] + s[k + 1..j];
      r
  }

  /** `String.prototype.replace(pat, rep)` with a string pattern and a
      replacement holding no `$` patterns: only the first occurrence is
      replaced. */
  function ReplaceFirst(s: string, pat: string, rep: string): (r: string)
    ensures !Contains(s, pat) ==> r == s
    ensures Contains(s, pat) ==>
      exists i ::
        && OccursAt(s, pat, i)
        && (forall k :: 0 <= k < i ==> !OccursAt(s, pat, k))
        && r == s[..i] + rep + s[i + |pat|..]
  {
    ContainsIffFound(s, pat);
    match IndexOfFrom(s, pat, 0)
    case None => s
    case Some(i) =>
      assert OccursAt(s, pat, i);
      s[..i] + rep + s[i + |pat|..]
  }

  /** A character of `s` outside the pattern survives the replacement. */
  lemma ReplaceKeeps(s: string, pat: string, rep: string, c: char)
    requires c in s && c !in pat
    ensures c in ReplaceFirst(s, pat, rep)
  {
    match IndexOfFrom(s, pat, 0)
    case None =>
    case Some(i) =>
      ReplaceAt(s, pat, rep, i);
      var j :| 0 <= j < |s| && s[j] == c;
      if j < i {
        assert s[..i][j] == c;
        InConcat(s[..i], rep, s[i + |pat|..], c);
      } else if j >= i + |pat| {
        assert s[i + |pat|..][j - i - |pat|] == c;
        InConcat(s[..i], rep, s[i + |pat|..], c);
      }
  }

  lemma InConcat(a: string, b: string, d: string, c: char)
    requires c in a || c in d
    ensures c in a + b + d
  {
  }

  /** Where the first occurrence is, the replacement cuts. */
  lemma ReplaceAt(s: string, pat: string, rep: string, i: nat)
    requires IndexOfFrom(s, pat, 0) == Some(i)
    ensures OccursAt(s, pat, i)
    ensures ReplaceFirst(s, pat, rep) == s[..i] + rep + s[i + |pat|..]
  {
  }

  // -------------------------------------------------------------- splitting

  /** Concatenation of a sequence of strings. */
  function Flatten(parts: seq<string>): string {
    if parts == [] then [] else parts[0] + Flatten(parts[1..])
  }

  lemma FlattenAppend(a: seq<string>, b: seq<string>)
    ensures Flatten(a + b) == Flatten(a) + Flatten(b)
  {
    if a == [] {
      assert a + b == b;
    } else {
      assert (a + b)[1..] == a[1..] + b;
      FlattenAppend(a[1..], b);
    }
  }

  /** The characters of `s` that belong to `cs`, in order. */
  function Separators(s: string, cs: set<char>): (r: string)
    ensures AllIn(r, cs)
  {
    if s == [] then []
    else (if s[0] in cs then [s[0]] else []) + Separators(s[1..], cs)
  }

  lemma SeparatorsOfPlain(s: string, cs: set<char>)
    requires NoneIn(s, cs)
    ensures Separators(s, cs) == []
  {
  }

  /** `parts[0] + gaps[0] + parts[1] + gaps[1] + ... + parts[n]`. */
  function Interleave(parts: seq<string>, gaps: string): string
    requires |parts| == |gaps| + 1
  {
    if gaps == [] then parts[0]
    else parts[0] + [gaps[0]] + Interleave(parts[1..], gaps[1..])
  }

  /** `String.prototype.split` with a separator that matches exactly one
      character of `cs`: the pieces between separators, including the empty
      ones; the empty string splits into one empty piece. Putting the
      separators back between the pieces restores `s`. */
  function SplitWhere(s: string, cs: set<char>): (parts: seq<string>)
    ensures |parts| == |Separators(s, cs)| + 1
    ensures forall i :: 0 <= i < |parts| ==> NoneIn(parts[i], cs)
    ensures Interleave(parts, Separators(s, cs)) == s
    decreases |s|
  {
    var i := SkipNotIn(s, 0, cs);
    if i == |s| then
      SeparatorsOfPlain(s, cs);
      [s]
    else
      var tail := SplitWhere(s[i + 1..], cs);
      SeparatorsSplit(s, i, cs);
      assert s == s[..i] + [s[i]] + s[i + 1..];
      [s[..i]] + tail
  }

  lemma SeparatorsSplit(s: string, i: nat, cs: set<char>)
    requires i < |s| && NoneIn(s[..i], cs) && s[i] in cs
    ensures Separators(s, cs) == [s[i]] + Separators(s[i + 1..], cs)
    decreases i
  {
    if i > 0 {
      assert s[1..][..i - 1] == s[1..i];
      assert s[1..][i..] == s[i + 1..];
      SeparatorsSplit(s[1..], i - 1, cs);
    }
  }

  /** Joining pieces with one separator character and splitting again on
      that character gives back the pieces. */
  lemma {:induction false} SplitJoin(parts: seq<string>, sep: char, cs: set<char>)
    requires |parts| >= 1 && sep in cs
    requires forall i :: 0 <= i < |parts| ==> NoneIn(parts[i], cs)
    ensures SplitWhere(Join(parts, sep), cs) == parts
    decreases |parts|
  {
    var s := Join(parts, sep);
    var i := SkipNotIn(s, 0, cs);
    if |parts| == 1 {
      assert s == parts[0];
      assert NoneIn(s, cs);
      assert i == |s|;
    } else {
      SplitJoin(parts[1..], sep, cs);
      SplitJoinCons(parts, sep, cs);
    }
  }

  /** One step of `SplitJoin`: the first piece, then the split of the rest. */
  lemma SplitJoinCons(parts: seq<string>, sep: char, cs: set<char>)
    requires |parts| >= 2 && sep in cs && NoneIn(parts[0], cs)
    requires SplitWhere(Join(parts[1..], sep), cs) == parts[1..]
    ensures SplitWhere(Join(parts, sep), cs) == parts
  {
    var s := Join(parts, sep);
    var rest := Join(parts[1..], sep);
    assert s == parts[0] + [sep] + rest;
    assert s[..|parts[0]|] == parts[0];
    SkipNotInStops(s, 0, |parts[0]|, cs);
    assert s[|parts[0]| + 1..] == rest;
  }

  /** Pieces put back together with any separator characters of `cs`
      between them split back into the same pieces. */
  lemma {:induction false} SplitInterleave(parts: seq<string>, gaps: string, cs: set<char>)
    requires |parts| == |gaps| + 1 && AllIn(gaps, cs)
    requires forall i :: 0 <= i < |parts| ==> NoneIn(parts[i], cs)
    ensures SplitWhere(Interleave(parts, gaps), cs) == parts
    decreases |gaps|
  {
    var s := Interleave(parts, gaps);
    if gaps == [] {
      assert s == parts[0];
      assert SkipNotIn(s, 0, cs) == |s|;
    } else {
      var rest := Interleave(parts[1..], gaps[1..]);
      assert s == parts[0] + [gaps[0]] + rest;
      assert s[..|parts[0]|] == parts[0];
      SkipNotInStops(s, 0, |parts[0]|, cs);
      assert s[|parts[0]| + 1..] == rest;
      SplitInterleave(parts[1..], gaps[1..], cs);
    }
  }

  lemma SkipNotInStops(s: string, i: nat, k: nat, cs: set<char>)
    requires i <= k < |s|
    requires NoneIn(s[i..k], cs) && s[k] in cs
    ensures SkipNotIn(s, i, cs) == k
    decreases k - i
  {
    if i < k {
      assert s[i] == s[i..k][0];
      assert s[i + 1..k] == s[i..k][1..];
      SkipNotInStops(s, i + 1, k, cs);
    }
  }

  /** `parts.join(sep)` for a one-character separator. */
  function Join(parts: seq<string>, sep: char): string
    requires |parts| >= 1
  {
    if |parts| == 1 then parts[0] else parts[0] + [sep] + Join(parts[1..], sep)
  }

  // ------------------------------------------------------------ lowercase

  /** `String.prototype.toLowerCase` restricted to ASCII letters; every
      other character is kept. */
  function AsciiLower(s: string): (r: string)
    ensures |r| == |s|
    ensures forall i :: 0 <= i < |s| ==>
      r[i] == (if 'A' <= s[i] <= 'Z' then (s[i] as int + 32) as char else s[i])
  {
    if s == [] then []
    else [if 'A' <= s[0] <= 'Z' then (s[0] as int + 32) as char else s[0]] + AsciiLower(s[1..])
  }
}
