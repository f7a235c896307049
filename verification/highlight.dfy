/** The keyword highlighter of an overview title (`highlightTitle`): the
    title is cut into runs of non-whitespace and whitespace, and each run
    takes the tone of the first keyword group one of whose words it
    contains. */
module Highlight {
  import opened Wrappers
  import opened Text

  /** The three styles of the keyword groups: the brand blue, amber and
      stone grey. */
  datatype Tone = Brand | Amber | Stone

  datatype KeywordGroup = KeywordGroup(words: seq<string>, tone: Tone)

  /** One rendered span: its text and its tone, `None` for a plain span. */
  datatype TitlePart = TitlePart(text: string, tone: Option<Tone>)

  /** The keyword groups, in priority order. */
  const TitleKeywords: seq<KeywordGroup> := [
    KeywordGroup(["登船", "海洋贊禮號", "海上巡航日", "下船"], Brand),
    KeywordGroup(["抵達", "樟宜機場周邊", "新加坡", "檳城", "普吉島"], Amber),
    KeywordGroup(["停靠"], Stone)
  ]

  // ------------------------------------------------------------ the runs

  /** The shape of `s.split(/(\s+)/)`: a whitespace-free part, then any
      number of pairs of a non-empty whitespace run and a whitespace-free
      part; only the first and the last part may be empty. */
  predicate RunShape(parts: seq<string>)
    decreases |parts|
  {
    && |parts| % 2 == 1
    && NoneIn(parts[0], Whitespace)
    && (|parts| > 1 ==>
      && parts[1] != [] && AllIn(parts[1], Whitespace)
      && (|parts| > 3 ==> parts[2] != [])
      && RunShape(parts[2..]))
  }

  /** `s.split(/(\s+)/)`: the split keeps the captured whitespace runs, so
      nothing of the title is lost, and a leading or trailing run leaves an
      empty first or last part. */
  function SplitRuns(s: string): (parts: seq<string>)
    ensures Flatten(parts) == s && RunShape(parts)
    ensures s != [] && s[0] !in Whitespace ==> parts[0] != []
    decreases |s|
  {
    var q := SkipNotIn(s, 0, Whitespace);
    if q == |s| then
      RunSingle(s);
      [s]
    else
      var e := SkipIn(s, q, Whitespace);
      RunBounds(s, q, e);
      var rest := SplitRuns(s[e..]);
      RunStep(s, q, e, rest);
      [s[..q], s[q..e]] + rest
  }

  /** A title without whitespace is a single part. */
  lemma RunSingle(s: string)
    requires SkipNotIn(s, 0, Whitespace) == |s|
    ensures Flatten([s]) == s && RunShape([s])
  {
    assert NoneIn(s, Whitespace);
  }

  /** The first whitespace run of the title spans `q` to `e`. */
  lemma RunBounds(s: string, q: nat, e: nat)
    requires q == SkipNotIn(s, 0, Whitespace) < |s| && e == SkipIn(s, q, Whitespace)
    ensures q < e <= |s|
    ensures NoneIn(s[..q], Whitespace) && AllIn(s[q..e], Whitespace)
    ensures e < |s| ==> s[e] !in Whitespace
  {
  }

  /** One step of the split: the whitespace-free prefix up to `q`, the
      run from `q` to `e`, then the split of the remainder. */
  lemma RunStep(s: string, q: nat, e: nat, rest: seq<string>)
    requires q < e <= |s|
    requires NoneIn(s[..q], Whitespace) && AllIn(s[q..e], Whitespace)
    requires e < |s| ==> s[e] !in Whitespace
    requires Flatten(rest) == s[e..] && RunShape(rest)
    requires s[e..] != [] && s[e..][0] !in Whitespace ==> rest[0] != []
    ensures Flatten([s[..q], s[q..e]] + rest) == s && RunShape([s[..q], s[q..e]] + rest)
    ensures s[0] !in Whitespace ==> s[..q] != []
  {
    var parts := [s[..q], s[q..e]] + rest;
    RunStepFlatten(s, q, e, rest);
    assert parts[2..] == rest;
    if |rest| > 1 {
      LongRunShapeNonEmpty(rest);
      assert s[e..][0] == s[e];
    }
    assert s[q] in Whitespace by {
      assert s[q..e][0] == s[q];
    }
    assert parts[0] == s[..q] && parts[1] == s[q..e];
    assert |parts| > 3 ==> parts[2] != [];
  }

  lemma RunStepFlatten(s: string, q: nat, e: nat, rest: seq<string>)
    requires q < e <= |s| && Flatten(rest) == s[e..]
    ensures Flatten([s[..q], s[q..e]] + rest) == s
  {
    var parts := [s[..q], s[q..e]] + rest;
    assert parts[1..][1..] == rest;
    assert Flatten(parts) == s[..q] + (s[q..e] + Flatten(rest));
    assert s == s[..q] + (s[q..e] + s[e..]);
  }

  lemma LongRunShapeNonEmpty(parts: seq<string>)
    requires RunShape(parts) && |parts| > 1
    ensures Flatten(parts) != []
  {
    assert Flatten(parts) == parts[0] + (parts[1] + Flatten(parts[2..]));
  }

  /** The run shape read by position: even parts are whitespace-free, odd
      parts are non-empty whitespace runs, inner even parts are non-empty. */
  lemma {:induction false} RunShapeAt(parts: seq<string>, i: int)
    requires RunShape(parts) && 0 <= i < |parts|
    ensures i % 2 == 0 ==> NoneIn(parts[i], Whitespace)
    ensures i % 2 == 1 ==> parts[i] != [] && AllIn(parts[i], Whitespace)
    ensures 0 < i < |parts| - 1 && i % 2 == 0 ==> parts[i] != []
    decreases |parts|
  {
    if i >= 2 {
      RunShapeAt(parts[2..], i - 2);
      assert parts[2..][i - 2] == parts[i];
    }
  }

  /** The split is the only decomposition of that shape: any parts of the
      run shape that concatenate to `s` are exactly `SplitRuns(s)`. */
  lemma {:induction false} RunSplitUnique(s: string, parts: seq<string>)
    requires RunShape(parts) && Flatten(parts) == s
    ensures parts == SplitRuns(s)
    decreases |parts|
  {
    if |parts| == 1 {
      assert s == parts[0];
      SkipNotInAll(s);
    } else {
      var a, w, rest := parts[0], parts[1], parts[2..];
      assert parts == [a, w] + rest;
      assert parts[1..][1..] == rest;
      var t := Flatten(rest);
      assert s == a + w + t;
      RunSplitUnique(t, rest);
      assert t == [] || t[0] !in Whitespace by {
        assert t == rest[0] + Flatten(rest[1..]);
        if |rest| == 1 {
          assert t == rest[0];
        }
      }
      assert s[..|a|] == a;
      assert s[|a|..|a| + |w|] == w;
      assert s[|a| + |w|..] == t;
      assert |a| < |s| && s[|a|] == w[0];
      SkipNotInStops(s, 0, |a|, Whitespace);
      SkipInUpTo(s, |a|, |a| + |w|);
    }
  }

  lemma SkipNotInAll(s: string)
    requires NoneIn(s, Whitespace)
    ensures SkipNotIn(s, 0, Whitespace) == |s|
  {
  }

  /** A whitespace run that ends at the end of `s` or before a character
      outside it is skipped whole. */
  lemma SkipInUpTo(s: string, i: nat, k: nat)
    requires i <= k <= |s|
    requires AllIn(s[i..k], Whitespace) && (k == |s| || s[k] !in Whitespace)
    ensures SkipIn(s, i, Whitespace) == k
  {
    if k < |s| {
      SkipInStops(s, i, k, Whitespace);
    } else {
    }
  }

  // ------------------------------------------------------------ the tones

  /** `k.words.some(w => part.includes(w))`. */
  predicate Hits(part: string, g: KeywordGroup) {
    exists j :: 0 <= j < |g.words| && Contains(part, g.words[j])
  }

  /** The loop over the keyword groups: the tone of the first group that
      hits the part, or `None` when no group does. */
  function FirstGroup(part: string, groups: seq<KeywordGroup>): (r: Option<Tone>)
    ensures r.None? <==> forall j :: 0 <= j < |groups| ==> !Hits(part, groups[j])
    ensures r.Some? ==>
      exists j :: 0 <= j < |groups| && Hits(part, groups[j]) && groups[j].tone == r.value
        && forall k :: 0 <= k < j ==> !Hits(part, groups[k])
  {
    if groups == [] then None
    else if Hits(part, groups[0]) then Some(groups[0].tone)
    else
      var r := FirstGroup(part, groups[1..]);
      assert forall j :: 1 <= j < |groups| ==> groups[j] == groups[1..][j - 1];
      r
  }

  /** The highlighted title: the spans spell out the title, cut as
      `split(/(\s+)/)` cuts it (which `RunSplitUnique` shows is the only
      cut of that shape), each span takes the tone of the first keyword
      group it mentions, and a whitespace span is never styled. */
  function HighlightTitle(title: string): (spans: seq<TitlePart>)
    ensures Flatten(Texts(spans)) == title && RunShape(Texts(spans))
    ensures forall i :: 0 <= i < |spans| ==> spans[i].tone == FirstGroup(spans[i].text, TitleKeywords)
    ensures forall i :: 0 <= i < |spans| && i % 2 == 1 ==> spans[i].tone.None?
  {
    var parts := SplitRuns(title);
    var spans := seq(|parts|, i requires 0 <= i < |parts| => TitlePart(parts[i], FirstGroup(parts[i], TitleKeywords)));
    assert Texts(spans) == parts;
    assert forall i :: 0 <= i < |spans| && i % 2 == 1 ==> spans[i].tone.None? by {
      forall i | 0 <= i < |spans| && i % 2 == 1 ensures spans[i].tone.None? {
        RunShapeAt(parts, i);
        WhitespaceUnstyled(parts[i]);
      }
    }
    spans
  }

  function Texts(spans: seq<TitlePart>): (r: seq<string>)
    ensures |r| == |spans| && forall i :: 0 <= i < |r| ==> r[i] == spans[i].text
  {
    if spans == [] then [] else [spans[0].text] + Texts(spans[1..])
  }

  /** A whitespace run is never styled: every keyword has a character
      outside the whitespace set, so no whitespace run contains one. */
  lemma WhitespaceUnstyled(part: string)
    requires AllIn(part, Whitespace)
    ensures FirstGroup(part, TitleKeywords).None?
  {
    KeywordsVisible();
    forall j | 0 <= j < |TitleKeywords| ensures !Hits(part, TitleKeywords[j]) {
      forall m | 0 <= m < |TitleKeywords[j].words|
        ensures !Contains(part, TitleKeywords[j].words[m])
      {
        BlankHasNoVisible(part, TitleKeywords[j].words[m]);
      }
    }
  }

  /** Every keyword starts with a visible character. */
  lemma KeywordsVisible()
    ensures forall j, m :: 0 <= j < |TitleKeywords| && 0 <= m < |TitleKeywords[j].words| ==>
      TitleKeywords[j].words[m] != [] && TitleKeywords[j].words[m][0] !in Whitespace
  {
  }

  lemma BlankHasNoVisible(part: string, w: string)
    requires AllIn(part, Whitespace)
    requires w != [] && w[0] !in Whitespace
    ensures !Contains(part, w)
  {
    forall i | 0 <= i <= |part| ensures !OccursAt(part, w, i) {
      if i + |w| <= |part| {
        assert part[i..i + |w|][0] == part[i];
      }
    }
  }

  /** A part that contains a word of a group is styled by that group or by
      an earlier one, never by a later one and never left plain. */
  lemma PriorityOfGroups(part: string, j: int, m: int)
    requires 0 <= j < |TitleKeywords| && 0 <= m < |TitleKeywords[j].words|
    requires Contains(part, TitleKeywords[j].words[m])
    ensures var r := FirstGroup(part, TitleKeywords);
      r.Some? && exists k :: 0 <= k <= j && TitleKeywords[k].tone == r.value
  {
    assert Hits(part, TitleKeywords[j]);
    var r := FirstGroup(part, TitleKeywords);
    var k :| 0 <= k < |TitleKeywords| && Hits(part, TitleKeywords[k])
      && TitleKeywords[k].tone == r.value
      && forall k' :: 0 <= k' < k ==> !Hits(part, TitleKeywords[k']);
    assert k <= j;
  }
}
