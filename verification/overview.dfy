/** The overview parser of `renderOverviewContent`: every non-blank line of
    the trip overview of the form `DAY<n>：title [tag] | detail; detail`
    becomes one record; any other line is dropped without an error. */
module Overview {
  import opened Wrappers
  import opened Text
  import opened Seqs

  /** The half-width and the full-width colon accepted after the day. */
  const Colons: set<char> := {':', '：'}

  /** The half-width and the full-width semicolon that separate details. */
  const DetailSeparators: set<char> := {';', '；'}

  const Pipe: set<char> := {'|'}

  /** One parsed overview line. `tag` is `None` where the source has `null`. */
  datatype OverviewLine = OverviewLine(
    dayLabel: string,
    tag: Option<string>,
    title: string,
    details: seq<string>)

  /** The three capture groups of
      `/^(DAY\s*\d+)[：:]\s*([^|]*)(?:\|\s*(.*))?$/i`; `details` is `None`
      when the optional group did not take part in the match. */
  datatype LineMatch = LineMatch(day: string, title: string, details: Option<string>)

  // ------------------------------------------------------------ day prefix

  /** `DAY` under the `i` flag: without the `u` flag only the ASCII letters
      fold onto each other. */
  predicate IsDayWord(s: string) {
    |s| == 3 && s[0] in {'D', 'd'} && s[1] in {'A', 'a'} && s[2] in {'Y', 'y'}
  }

  /** `line[..k]` is `DAY\s*\d+` (case-insensitively) and `line[k]` is a
      colon. */
  predicate DayPatternAt(line: string, k: int) {
    && 3 < k < |line|
    && IsDayWord(line[..3])
    && line[k] in Colons
    && exists j :: 3 <= j < k && AllIn(line[3..j], Whitespace) && AllIn(line[j..k], Digits)
  }

  /** The length of the `DAY\s*\d+` group when a colon follows it. The
      whitespace and the digits are disjoint from each other and from the
      colons, so the greedy match is the only one. */
  function DayPrefixEnd(line: string): (r: Option<nat>)
    ensures r.Some? ==> DayPatternAt(line, r.value)
  {
    if |line| < 3 || !IsDayWord(line[..3]) then None
    else
      var j := SkipIn(line, 3, Whitespace);
      var k := SkipIn(line, j, Digits);
      if k == j || k == |line| || line[k] !in Colons then None
      else
        assert AllIn(line[3..j], Whitespace) && AllIn(line[j..k], Digits);
        Some(k)
  }

  /** The day prefix is found exactly where the pattern holds, and nowhere
      else: a line has at most one way to start with a day. */
  lemma DayPrefixComplete(line: string, k: int)
    requires DayPatternAt(line, k)
    ensures DayPrefixEnd(line) == Some(k)
  {
    var j :| 3 <= j < k && AllIn(line[3..j], Whitespace) && AllIn(line[j..k], Digits);
    assert line[j] == line[j..k][0];
    SkipInStops(line, 3, j, Whitespace);
    SkipInStops(line, j, k, Digits);
  }

  // ------------------------------------------------------------ whole line

  /** `\s*([^|]*)(?:\|\s*(.*))?$` against the text after the colon. The
      title group runs to the first `|`. When there is one, the `.*` after
      `\|\s*` must reach the end of the line, which fails if a line
      terminator is left after the skipped whitespace; no shorter title or
      skipped group can reach `$` either, so then the whole line fails. */
  function MatchTail(rest: string): (r: Option<(string, Option<string>)>)
  {
    var p := SkipNotIn(rest, 0, Pipe);
    var title := TrimStart(rest[..p]);
    if p == |rest| then Some((title, None))
    else
      var details := TrimStart(rest[p + 1..]);
      if NoneIn(details, LineTerminators) then Some((title, Some(details))) else None
  }

  /** The text after the colon can complete a match. */
  predicate TailMatches(rest: string) {
    forall p :: 0 <= p < |rest| && rest[p] == '|' && NoneIn(rest[..p], Pipe) ==>
      NoneIn(TrimStart(rest[p + 1..]), LineTerminators)
  }

  /** `line.match(...)` of the line pattern. */
  function MatchLine(line: string): (r: Option<LineMatch>)
    ensures r.Some? ==> var k := |r.value.day|;
      DayPatternAt(line, k) && r.value.day == line[..k]
    ensures r.Some? ==> NoneIn(r.value.title, Pipe)
    ensures r.Some? && r.value.details.Some? ==> NoneIn(r.value.details.value, LineTerminators)
  {
    match DayPrefixEnd(line)
    case None => None
    case Some(k) =>
      match MatchTail(line[k + 1..])
      case None => None
      case Some((title, details)) => Some(LineMatch(line[..k], title, details))
  }

  /** A line is kept exactly when it starts with a day and a colon and the
      rest can complete the match. */
  lemma MatchLineIff(line: string)
    ensures MatchLine(line).Some? <==>
      exists k :: DayPatternAt(line, k) && TailMatches(line[k + 1..])
  {
    if MatchLine(line).Some? {
      var k := MatchLineSound(line);
    }
    if exists k :: DayPatternAt(line, k) && TailMatches(line[k + 1..]) {
      var k :| DayPatternAt(line, k) && TailMatches(line[k + 1..]);
      MatchLineComplete(line, k);
    }
  }

  lemma MatchLineSound(line: string) returns (k: int)
    requires MatchLine(line).Some?
    ensures DayPatternAt(line, k) && TailMatches(line[k + 1..])
  {
    k := DayPrefixEnd(line).value;
    TailMatchesIff(line[k + 1..]);
  }

  lemma MatchLineComplete(line: string, k: int)
    requires DayPatternAt(line, k) && TailMatches(line[k + 1..])
    ensures MatchLine(line).Some?
  {
    DayPrefixComplete(line, k);
    TailMatchesIff(line[k + 1..]);
  }

  /** A `~` between the day number and the colon, as in `DAY8~：`, makes
      the line fail the pattern, so it is dropped. */
  lemma TildeDayRejected(line: string)
    requires |line| >= 5 && line[..5] == "DAY8~"
    ensures ParseLine(line).None?
  {
    TildePrefixFails(line);
    assert MatchLine(line).None?;
  }

  lemma TildePrefixFails(line: string)
    requires |line| >= 5 && line[..5] == "DAY8~"
    ensures DayPrefixEnd(line).None?
  {
    assert line[..3] == line[..5][..3] == "DAY";
    assert line[3] == line[..5][3] && line[4] == line[..5][4];
    SkipInStops(line, 3, 3, Whitespace);
    assert line[3..4] == [line[3]];
    SkipInStops(line, 3, 4, Digits);
  }

  /** For a line without line terminators (every line of real overview
      text) only the start matters: the line is kept exactly when it
      starts with `DAY`, optional whitespace, digits and a colon. */
  lemma MatchLineWithoutTerminators(line: string)
    requires NoneIn(line, LineTerminators)
    ensures MatchLine(line).Some? <==> exists k :: DayPatternAt(line, k)
  {
    MatchLineIff(line);
    if exists k :: DayPatternAt(line, k) {
      var k :| DayPatternAt(line, k);
      assert NoneIn(line[k + 1..], LineTerminators);
      TailWithoutTerminators(line[k + 1..]);
    }
  }

  lemma TailMatchesIff(rest: string)
    ensures MatchTail(rest).Some? <==> TailMatches(rest)
  {
    var p := SkipNotIn(rest, 0, Pipe);
    assert rest[..p] == rest[0..p];
    forall q | 0 <= q < |rest| && rest[q] == '|' && NoneIn(rest[..q], Pipe)
      ensures q == p
    {
      FirstPipe(rest, p, q);
    }
  }

  lemma FirstPipe(rest: string, p: nat, q: nat)
    requires p <= |rest| && NoneIn(rest[..p], Pipe) && (p < |rest| ==> rest[p] == '|')
    requires q < |rest| && rest[q] == '|' && NoneIn(rest[..q], Pipe)
    ensures p == q
  {
  }

  lemma TailWithoutTerminators(rest: string)
    requires NoneIn(rest, LineTerminators)
    ensures TailMatches(rest)
  {
    forall p | 0 <= p < |rest| && rest[p] == '|' && NoneIn(rest[..p], Pipe)
      ensures NoneIn(TrimStart(rest[p + 1..]), LineTerminators)
    {
      var t := rest[p + 1..];
      assert TrimStart(t) == t[|t| - |TrimStart(t)|..];
    }
  }

  // ------------------------------------------------------------ day label

  /** The badge text (lines 499-500 read as intended: the first line
      defines `dayLabelRaw`): the first case-sensitive `DAY` becomes
      `DAY `, and a `~` follows when the text contains an `8`. */
  function DayLabel(day: string): (r: string)
    ensures '8' in day ==> r != [] && r[|r| - 1] == '~'
    ensures '8' !in day && !Contains(day, "DAY") ==> r == day
  {
    var raw := ReplaceFirst(day, "DAY", "DAY ");
    assert '8' in day ==> '8' in raw by {
      if '8' in day { ReplaceKeeps(day, "DAY", "DAY ", '8'); }
    }
    if '8' in raw then raw + "~" else raw
  }

  /** For a matched day group: upper-case `DAY` gains a space, any other
      spelling is kept as it is, and the marker is appended exactly when
      the digits contain an `8` (so `DAY18` gets it too; nothing is
      compared numerically). */
  lemma DayLabelOfMatch(line: string, k: int)
    requires DayPatternAt(line, k)
    ensures var day := line[..k];
      DayLabel(day) ==
        (if day[..3] == "DAY" then "DAY " + day[3..] else day)
        + (if '8' in day[3..] then "~" else "")
  {
    var day := line[..k];
    DayGroupShape(line, k);
    if day[..3] == "DAY" {
      UpperDayReplaced(day);
    } else {
      NoUpperDay(day);
      assert ReplaceFirst(day, "DAY", "DAY ") == day;
      EightAfterWord(day);
    }
  }

  /** An upper-case `DAY` at the start is the occurrence that is replaced. */
  lemma UpperDayReplaced(day: string)
    requires |day| >= 3 && day[..3] == "DAY"
    ensures ReplaceFirst(day, "DAY", "DAY ") == "DAY " + day[3..]
  {
    assert OccursAt(day, "DAY", 0);
  }

  /** The day word holds no digit, so an `8` of the group is one of the
      characters after it. */
  lemma EightAfterWord(day: string)
    requires |day| >= 3 && IsDayWord(day[..3])
    ensures '8' in day <==> '8' in day[3..]
  {
    assert day == day[..3] + day[3..];
    assert '8' !in day[..3];
  }

  /** After the day word a day group holds only whitespace and digits. */
  lemma DayGroupShape(line: string, k: int)
    requires DayPatternAt(line, k)
    ensures IsDayWord(line[..k][..3])
    ensures forall i :: 3 <= i < k ==> line[..k][i] in Whitespace || line[..k][i] in Digits
  {
    var j :| 3 <= j < k && AllIn(line[3..j], Whitespace) && AllIn(line[j..k], Digits);
    forall i | 3 <= i < k ensures line[i] in Whitespace || line[i] in Digits {
      if i < j {
        assert line[3..j][i - 3] == line[i];
      } else {
        assert line[j..k][i - j] == line[i];
      }
    }
  }

  /** A day group not spelled `DAY` has no upper-case `DAY` anywhere. */
  lemma NoUpperDay(day: string)
    requires |day| >= 3 && IsDayWord(day[..3]) && day[..3] != "DAY"
    requires forall i :: 3 <= i < |day| ==> day[i] in Whitespace || day[i] in Digits
    ensures IndexOfFrom(day, "DAY", 0).None?
  {
    forall i: int ensures !OccursAt(day, "DAY", i) {
      NotDayAt(day, i);
    }
  }

  lemma NotDayAt(day: string, i: int)
    requires |day| >= 3 && IsDayWord(day[..3]) && day[..3] != "DAY"
    requires forall i :: 3 <= i < |day| ==> day[i] in Whitespace || day[i] in Digits
    ensures !OccursAt(day, "DAY", i)
  {
    if 0 <= i && i + 3 <= |day| {
      var w := day[i..i + 3];
      if i == 0 {
        assert w == day[..3];
      } else if i < 3 {
        assert w[0] == day[i] == day[..3][i];
      } else {
        assert w[0] == day[i];
        assert day[i] != 'D';
      }
    }
  }

  // ------------------------------------------------------------------- tag

  /** `/\[(.*?)\]/` on the title: the leftmost `[` from which a `]` is
      reached before any line terminator, and the first such `]`. */
  function FindTag(s: string, from: nat): (r: Option<(nat, nat)>)
    requires from <= |s|
    ensures r.Some? ==> (from <= r.value.0 < r.value.1 < |s|
      && s[r.value.0] == '[' && LazyUntil(s, r.value.0 + 1, ']') == Some(r.value.1))
    ensures r.Some? ==> forall i :: from <= i < r.value.0 ==> !OpensTag(s, i)
    ensures r.None? ==> forall i :: from <= i < |s| ==> !OpensTag(s, i)
    decreases |s| - from
  {
    if from == |s| then None
    else if OpensTag(s, from) then
      Some((from, LazyUntil(s, from + 1, ']').value))
    else FindTag(s, from + 1)
  }

  /** A `[` at `i` from which the lazy `.*?]` reaches a `]`. */
  predicate OpensTag(s: string, i: nat)
    requires i < |s|
  {
    s[i] == '[' && LazyUntil(s, i + 1, ']').Some?
  }

  /** `t[i..j + 1]` is a bracket group whose inside is `tag`, and `title`
      is what is left of `t` without it, trimmed. */
  predicate TagAt(t: string, i: int, j: int, tag: string, title: string) {
    && 0 <= i < j < |t| && t[i] == '[' && t[j] == ']'
    && tag == t[i + 1..j] && title == Trim(t[..i] + t[j + 1..])
  }

  /** The tag and the title left once that one bracket group is removed and
      the rest trimmed again; without a bracket group the title is kept as
      it is and the tag is `None`. */
  function ExtractTag(t: string): (r: (Option<string>, string))
    ensures r.0.None? ==> r.1 == t
    ensures r.0.Some? ==> exists i, j :: TagAt(t, i, j, r.0.value, r.1)
  {
    var found := FindTag(t, 0);
    if found.None? then (None, t)
    else
      var i, j := found.value.0, found.value.1;
      var tag, rest := t[i + 1..j], Trim(t[..i] + t[j + 1..]);
      assert TagAt(t, i, j, tag, rest);
      (Some(tag), rest)
  }

  /** On a title without line terminators the tag is simply the text
      between the first `[` and the next `]` after it; if that `[` has no
      `]` after it, no later one has either and there is no tag. */
  lemma TagWithoutTerminators(t: string)
    requires NoneIn(t, LineTerminators)
    ensures FindTag(t, 0).Some? ==>
      var i := FindTag(t, 0).value.0;
      var j := FindTag(t, 0).value.1;
      NoneIn(t[..i], {'['}) && t[i] == '[' && t[j] == ']' && NoneIn(t[i + 1..j], {']'})
    ensures FindTag(t, 0).None? ==>
      forall x, y :: 0 <= x < y < |t| && t[x] == '[' ==> t[y] != ']'
  {
    var r := FindTag(t, 0);
    if r.Some? {
      var i := r.value.0;
      var j := r.value.1;
      forall x | 0 <= x < i ensures t[..i][x] != '[' {
        LazyUntilWithoutTerminators(t, x + 1, ']', j);
        assert !OpensTag(t, x);
      }
    } else {
      forall x, y | 0 <= x < y < |t| && t[x] == '['
        ensures t[y] != ']'
      {
        LazyUntilWithoutTerminators(t, x + 1, ']', y);
        assert !OpensTag(t, x);
      }
    }
  }

  /** With no line terminator in the way, a lazy `.*?c` finds any `c`. */
  lemma LazyUntilWithoutTerminators(s: string, k: nat, c: char, j: nat)
    requires k <= j < |s| && NoneIn(s, LineTerminators)
    ensures s[j] == c ==> LazyUntil(s, k, c).Some?
  {
    assert NoneIn(s[k..j], LineTerminators);
  }

  /** A title written as `a[g]b` with no `[` in `a` and neither `]` nor a
      line terminator in `g` gives back the tag `g` and the title
      `a + b` trimmed. */
  lemma {:induction false} ExtractTagOf(a: string, g: string, b: string)
    requires NoneIn(a, {'['}) && NoneIn(g, LineTerminators + {']'})
    ensures ExtractTag(a + "[" + g + "]" + b) == (Some(g), Trim(a + b))
  {
    var t := a + "[" + g + "]" + b;
    var i, j := |a|, |a| + 1 + |g|;
    TagPieces(a, g, b, t, i, j);
    LazyUntilReaches(t, i + 1, j, ']');
    FindTagSkips(t, 0, i);
    assert FindTag(t, 0) == Some((i, j));
  }

  /** Where the pieces of `a[g]b` sit. */
  lemma TagPieces(a: string, g: string, b: string, t: string, i: nat, j: nat)
    requires t == a + "[" + g + "]" + b && i == |a| && j == |a| + 1 + |g|
    ensures j < |t| && t[i] == '[' && t[j] == ']'
    ensures t[i + 1..j] == g && t[0..i] == a && t[j + 1..] == b
  {
  }

  lemma {:induction false} LazyUntilReaches(s: string, k: nat, j: nat, c: char)
    requires k <= j < |s| && s[j] == c && NoneIn(s[k..j], LineTerminators + {c})
    ensures LazyUntil(s, k, c) == Some(j)
    decreases j - k
  {
    if k < j {
      assert s[k] == s[k..j][0];
      assert s[k + 1..j] == s[k..j][1..];
      LazyUntilReaches(s, k + 1, j, c);
    }
  }

  lemma {:induction false} FindTagSkips(s: string, from: nat, i: nat)
    requires from <= i < |s| && s[i] == '[' && LazyUntil(s, i + 1, ']').Some?
    requires NoneIn(s[from..i], {'['})
    ensures FindTag(s, from) == Some((i, LazyUntil(s, i + 1, ']').value))
    decreases i - from
  {
    if from < i {
      assert s[from] == s[from..i][0];
      assert s[from + 1..i] == s[from..i][1..];
      FindTagSkips(s, from + 1, i);
    }
  }

  // --------------------------------------------------------------- details

  function TrimEach(parts: seq<string>): (r: seq<string>)
    ensures |r| == |parts|
    ensures forall i :: 0 <= i < |r| ==> r[i] == Trim(parts[i])
  {
    if parts == [] then [] else [Trim(parts[0])] + TrimEach(parts[1..])
  }

  function NonEmpty(s: string): bool { s != [] }

  /** `.filter(s => s)` on strings: an empty string is falsy. */
  function DropEmpty(parts: seq<string>): (r: seq<string>)
    ensures forall i :: 0 <= i < |r| ==> r[i] != [] && r[i] in parts
  {
    Filter(parts, NonEmpty)
  }

  /** A detail is non-empty, carries no separator and is trimmed. */
  predicate IsDetail(d: string) {
    d != [] && NoneIn(d, DetailSeparators) && d[0] !in Whitespace && d[|d| - 1] !in Whitespace
  }

  /** `detailsRaw.split(/[;；]/).map(s => s.trim()).filter(s => s)`: the
      pieces between separators, trimmed, empty ones removed, in order. */
  function SplitDetails(raw: string): (ds: seq<string>)
    ensures forall i :: 0 <= i < |ds| ==> IsDetail(ds[i])
    ensures var pieces := SplitWhere(raw, DetailSeparators);
      && |ds| == CountIf(TrimEach(pieces), NonEmpty)
      && forall i :: 0 <= i < |pieces| && Trim(pieces[i]) != [] ==>
        var k := CountIf(TrimEach(pieces)[..i], NonEmpty);
        k < |ds| && ds[k] == Trim(pieces[i])
  {
    var ds := DropEmpty(TrimEach(SplitWhere(raw, DetailSeparators)));
    SplitDetailsShape(SplitWhere(raw, DetailSeparators), ds);
    ds
  }

  lemma SplitDetailsShape(pieces: seq<string>, ds: seq<string>)
    requires forall i :: 0 <= i < |pieces| ==> NoneIn(pieces[i], DetailSeparators)
    requires ds == DropEmpty(TrimEach(pieces))
    ensures forall i :: 0 <= i < |ds| ==> IsDetail(ds[i])
  {
    var ts := TrimEach(pieces);
    forall i | 0 <= i < |ts| ensures NoneIn(ts[i], DetailSeparators) {
      TrimKeepsNone(pieces[i], DetailSeparators);
    }
    forall i | 0 <= i < |ds| ensures IsDetail(ds[i]) {
      TrimIsSlice(ds[i]);
      var x :| 0 <= x < |ts| && ts[x] == ds[i];
    }
  }

  /** Details joined with either separator split back into the same
      details. */
  lemma {:induction false} SplitDetailsJoin(ds: seq<string>, sep: char)
    requires |ds| >= 1 && sep in DetailSeparators
    requires forall i :: 0 <= i < |ds| ==> IsDetail(ds[i])
    ensures SplitDetails(Join(ds, sep)) == ds
  {
    SplitJoin(ds, sep, DetailSeparators);
    TrimEachTrimmed(ds);
    DropEmptyNonEmpty(ds);
  }

  /** Details written with any mix of `;` and `；` between them, padded
      with whitespace or left empty, split into the non-empty trimmed
      pieces, in order. */
  lemma SplitDetailsInterleave(ps: seq<string>, seps: string)
    requires |ps| == |seps| + 1 && AllIn(seps, DetailSeparators)
    requires forall i :: 0 <= i < |ps| ==> NoneIn(ps[i], DetailSeparators)
    ensures SplitDetails(Interleave(ps, seps)) == Filter(TrimEach(ps), NonEmpty)
  {
    SplitInterleave(ps, seps, DetailSeparators);
  }

  lemma {:induction false} TrimEachTrimmed(ds: seq<string>)
    requires forall i :: 0 <= i < |ds| ==> IsDetail(ds[i])
    ensures TrimEach(ds) == ds
  {
    forall i | 0 <= i < |ds| ensures Trim(ds[i]) == ds[i] {
      TrimTrimmed(ds[i]);
    }
  }

  lemma {:induction false} DropEmptyNonEmpty(ds: seq<string>)
    requires forall i :: 0 <= i < |ds| ==> ds[i] != []
    ensures DropEmpty(ds) == ds
  {
    if ds != [] {
      DropEmptyNonEmpty(ds[1..]);
    }
  }

  // -------------------------------------------------------------- a line

  /** One overview line, or `None` for a line the pattern rejects. */
  function ParseLine(line: string): (r: Option<OverviewLine>)
    ensures r.Some? <==> MatchLine(line).Some?
    ensures r.Some? ==> forall i :: 0 <= i < |r.value.details| ==> IsDetail(r.value.details[i])
  {
    match MatchLine(line)
    case None => None
    case Some(m) =>
      var titleRaw := Trim(m.title);
      var detailsRaw := if m.details.Some? then Trim(m.details.value) else [];
      var (tag, title) := ExtractTag(titleRaw);
      Some(OverviewLine(DayLabel(m.day), tag, title, SplitDetails(detailsRaw)))
  }

  /** Without a `|` there are no details, and the title is all the text
      after the colon, trimmed, less its tag. */
  lemma NoPipeNoDetails(line: string, k: int)
    requires DayPatternAt(line, k) && NoneIn(line[k + 1..], Pipe)
    ensures ParseLine(line).Some?
    ensures ParseLine(line).value.details == []
    ensures ParseLine(line).value.title == ExtractTag(Trim(line[k + 1..])).1
    ensures ParseLine(line) == Some(OverviewLine(
      DayLabel(line[..k]),
      ExtractTag(Trim(line[k + 1..])).0,
      ExtractTag(Trim(line[k + 1..])).1,
      []))
  {
    var rest := line[k + 1..];
    MatchNoPipe(line, k);
    TrimStartTrim(rest);
    SplitDetailsEmpty();
  }

  lemma MatchNoPipe(line: string, k: int)
    requires DayPatternAt(line, k) && NoneIn(line[k + 1..], Pipe)
    ensures MatchLine(line) == Some(LineMatch(line[..k], TrimStart(line[k + 1..]), None))
  {
    DayPrefixComplete(line, k);
    var rest := line[k + 1..];
    SkipNotInEnd(rest, Pipe);
    assert rest[..|rest|] == rest;
  }

  /** What the match's groups hold, given where the first `|` after the
      colon is (`p == |rest|` when there is none): the day group is the
      prefix, the title group is the text before that `|` less its leading
      whitespace, and the details group is the text after it less its
      leading whitespace; the match fails only when a line terminator is
      left in that details text. */
  lemma MatchLineFields(line: string, k: int, rest: string, p: nat)
    requires DayPatternAt(line, k) && rest == line[k + 1..]
    requires p <= |rest| && NoneIn(rest[..p], Pipe) && (p < |rest| ==> rest[p] == '|')
    ensures p == |rest| ==> MatchLine(line) == Some(LineMatch(line[..k], TrimStart(rest), None))
    ensures p < |rest| && NoneIn(TrimStart(rest[p + 1..]), LineTerminators) ==>
      MatchLine(line) == Some(LineMatch(line[..k], TrimStart(rest[..p]), Some(TrimStart(rest[p + 1..]))))
    ensures p < |rest| && !NoneIn(TrimStart(rest[p + 1..]), LineTerminators) ==> MatchLine(line).None?
  {
    DayPrefixComplete(line, k);
    PipeFound(rest, p);
    assert rest[..|rest|] == rest;
  }

  /** The scan for `|` stops at the first one, or at the end. */
  lemma PipeFound(rest: string, p: nat)
    requires p <= |rest| && NoneIn(rest[..p], Pipe) && (p < |rest| ==> rest[p] == '|')
    ensures SkipNotIn(rest, 0, Pipe) == p
  {
    var q := SkipNotIn(rest, 0, Pipe);
    assert rest[..q] == rest[0..q];
    if p < |rest| {
      FirstPipe(rest, q, p);
    } else if q < |rest| {
      FirstPipe(rest, p, q);
    }
  }

  /** A line with a `|` after the colon: the record's label is built from
      the day group, its tag and title come from the text before the first
      `|`, trimmed, and its details from the text after it, trimmed and
      split on `;` and `；`. */
  lemma ParseLinePipeFields(line: string, k: int, rest: string, p: nat)
    requires DayPatternAt(line, k) && rest == line[k + 1..]
    requires p < |rest| && rest[p] == '|' && NoneIn(rest[..p], Pipe)
    requires NoneIn(TrimStart(rest[p + 1..]), LineTerminators)
    ensures ParseLine(line) == Some(OverviewLine(
      DayLabel(line[..k]),
      ExtractTag(Trim(rest[..p])).0,
      ExtractTag(Trim(rest[..p])).1,
      SplitDetails(Trim(rest[p + 1..]))))
  {
    MatchLineFields(line, k, rest, p);
    TrimStartTrim(rest[..p]);
    TrimStartTrim(rest[p + 1..]);
  }

  lemma SplitDetailsEmpty()
    ensures SplitDetails([]) == []
  {
    assert SplitWhere([], DetailSeparators) == [[]];
    assert TrimEach([[]]) == [[]];
  }

  lemma SkipNotInEnd(s: string, cs: set<char>)
    requires NoneIn(s, cs)
    ensures SkipNotIn(s, 0, cs) == |s|
  {
  }

  lemma TrimStartTrim(s: string)
    ensures Trim(TrimStart(s)) == Trim(s)
  {
    var t := TrimStart(s);
    assert SkipIn(t, 0, Whitespace) == 0;
  }

  /** A line assembled from a day number, a title and details parses back
      into those parts: `DAY<n>:<title>|<d1>;<d2>;...` yields one record
      whose details are exactly `d1, d2, ...` and whose title is the
      given one. */
  lemma {:induction false} ParseComposedLine(n: string, title: string, ds: seq<string>)
    requires n != [] && AllIn(n, Digits)
    requires title != [] && title[0] !in Whitespace && title[|title| - 1] !in Whitespace
    requires NoneIn(title, Pipe + {'['})
    requires |ds| >= 1
    requires forall i :: 0 <= i < |ds| ==> IsDetail(ds[i]) && NoneIn(ds[i], LineTerminators)
    ensures var line := "DAY" + n + ":" + title + "|" + Join(ds, ';');
      ParseLine(line) == Some(OverviewLine(DayLabel("DAY" + n), None, title, ds))
  {
    var joined := Join(ds, ';');
    JoinShape(ds, ';');
    ComposedMatch(n, title, joined);
    TrimTrimmed(title);
    TrimTrimmed(joined);
    NoPipeNoTag(title);
    SplitDetailsJoin(ds, ';');
  }

  lemma ComposedMatch(n: string, title: string, joined: string)
    requires n != [] && AllIn(n, Digits)
    requires title != [] && title[0] !in Whitespace && NoneIn(title, Pipe)
    requires joined != [] && joined[0] !in Whitespace && NoneIn(joined, LineTerminators)
    ensures var line := "DAY" + n + ":" + title + "|" + joined;
      MatchLine(line) == Some(LineMatch("DAY" + n, title, Some(joined)))
  {
    var rest := title + "|" + joined;
    var line := "DAY" + n + ":" + title + "|" + joined;
    assert line == "DAY" + n + ":" + rest;
    DayLinePrefix(n, rest);
    ComposedTail(title, joined);
  }

  /** `DAY<n>:` in front of any text is recognised as the day prefix. */
  lemma DayLinePrefix(n: string, rest: string)
    requires n != [] && AllIn(n, Digits)
    ensures var line := "DAY" + n + ":" + rest;
      && DayPrefixEnd(line) == Some(3 + |n|)
      && line[..3 + |n|] == "DAY" + n
      && line[3 + |n| + 1..] == rest
  {
    var line := "DAY" + n + ":" + rest;
    var k := 3 + |n|;
    assert line[..3] == "DAY";
    assert line[3..3] == [];
    assert line[3..k] == n;
    assert line[k] == ':';
    assert DayPatternAt(line, k);
    DayPrefixComplete(line, k);
  }

  lemma ComposedTail(title: string, joined: string)
    requires title != [] && title[0] !in Whitespace && NoneIn(title, Pipe)
    requires joined != [] && joined[0] !in Whitespace && NoneIn(joined, LineTerminators)
    ensures MatchTail(title + "|" + joined) == Some((title, Some(joined)))
  {
    var rest := title + "|" + joined;
    assert rest[..|title|] == title;
    SkipNotInStops(rest, 0, |title|, Pipe);
    assert rest[|title| + 1..] == joined;
    assert SkipIn(title, 0, Whitespace) == 0;
    assert SkipIn(joined, 0, Whitespace) == 0;
  }

  lemma NoPipeNoTag(t: string)
    requires NoneIn(t, {'['})
    ensures FindTag(t, 0).None?
  {
  }

  /** A join of trimmed details starts and ends with them, and has no line
      terminator when the details have none. */
  lemma {:induction false} JoinShape(ds: seq<string>, sep: char)
    requires |ds| >= 1 && sep !in LineTerminators
    requires forall i :: 0 <= i < |ds| ==> IsDetail(ds[i]) && NoneIn(ds[i], LineTerminators)
    ensures var j := Join(ds, sep);
      j != [] && j[0] !in Whitespace && j[|j| - 1] !in Whitespace && NoneIn(j, LineTerminators)
    decreases |ds|
  {
    if |ds| > 1 {
      JoinShape(ds[1..], sep);
      var r := Join(ds[1..], sep);
      var j := ds[0] + [sep] + r;
      assert j[|j| - 1] == r[|r| - 1];
      forall i | 0 <= i < |j| ensures j[i] !in LineTerminators {
        if i < |ds[0]| { assert j[i] == ds[0][i]; }
        else if i > |ds[0]| { assert j[i] == r[i - |ds[0]| - 1]; }
      }
    }
  }

  // ------------------------------------------------------------- the text

  function NonBlank(s: string): bool { !AllIn(s, Whitespace) }

  /** `text.split('\n').filter(line => line.trim().length > 0)`. */
  function OverviewLines(text: string): (lines: seq<string>)
    ensures forall i :: 0 <= i < |lines| ==> Trim(lines[i]) != []
    ensures var pieces := SplitWhere(text, {'\n'});
      && |lines| == CountIf(pieces, NonBlank)
      && forall i :: 0 <= i < |pieces| && Trim(pieces[i]) != [] ==>
        var k := CountIf(pieces[..i], NonBlank);
        k < |lines| && lines[k] == pieces[i]
  {
    var lines := Filter(SplitWhere(text, {'\n'}), NonBlank);
    NonBlankTrims(lines);
    lines
  }

  lemma NonBlankTrims(lines: seq<string>)
    requires forall i :: 0 <= i < |lines| ==> NonBlank(lines[i])
    ensures forall i :: 0 <= i < |lines| ==> Trim(lines[i]) != []
  {
    forall i | 0 <= i < |lines| ensures Trim(lines[i]) != [] {
      TrimEmptyIffBlank(lines[i]);
    }
  }

  /** The records of the lines that match, in line order (`null` entries
      of the rendered list render nothing). */
  function ParseLines(lines: seq<string>): seq<OverviewLine>
  {
    Somes(seq(|lines|, i requires 0 <= i < |lines| => ParseLine(lines[i])))
  }

  /** The trip overview as records: the matching non-blank lines, in
      order. */
  function ParseOverview(text: string): seq<OverviewLine>
  {
    ParseLines(OverviewLines(text))
  }

  /** Every record comes from a non-blank line of the text that matches,
      and each non-blank line that does not match costs exactly one
      record. */
  lemma ParseOverviewSource(text: string)
    ensures var lines := OverviewLines(text);
      |ParseOverview(text)| == |lines| - |Filter(lines, Rejected)|
    ensures forall r :: r in ParseOverview(text) ==>
      exists i :: 0 <= i < |OverviewLines(text)| && ParseLine(OverviewLines(text)[i]) == Some(r)
  {
    var lines := OverviewLines(text);
    var xs := seq(|lines|, i requires 0 <= i < |lines| => ParseLine(lines[i]));
    SomesCount(xs);
    RejectedCount(lines, xs);
    forall r | r in Somes(xs)
      ensures exists i :: 0 <= i < |lines| && ParseLine(lines[i]) == Some(r)
    {
      var i := SomesSource(xs, r);
      assert xs[i] == ParseLine(lines[i]);
    }
  }

  function Rejected(line: string): bool { ParseLine(line).None? }

  lemma {:induction false} RejectedCount(lines: seq<string>, xs: seq<Option<OverviewLine>>)
    requires |xs| == |lines| && forall i :: 0 <= i < |lines| ==> xs[i] == ParseLine(lines[i])
    ensures |Filter(lines, Rejected)| == |Nones(xs)|
  {
    if lines != [] {
      RejectedCount(lines[1..], xs[1..]);
    }
  }
}
