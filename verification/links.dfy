/** The markdown-lite link splitter of a detail line (`parseLinks`): the
    line is cut around every `[label](url)` with
    `text.split(/(\[.*?\]\(.*?\))/g)`, and each part that is, as a whole,
    `/^\[(.*?)\]\((.*?)\)$/` becomes a link. */
module Links {
  import opened Wrappers
  import opened Text

  /** One rendered piece of a detail line. */
  datatype Segment = Plain(text: string) | Link(anchor: string, url: string)

  /** The text a segment was cut from. */
  function Raw(seg: Segment): string {
    match seg
    case Plain(t) => t
    case Link(l, u) => "[" + l + "](" + u + ")"
  }

  // ------------------------------------------------------------ link shape

  /** No line terminator in `s[i..j]`: `.` can cross it. */
  predicate NoTerminator(s: string, i: int, j: int)
    requires 0 <= i <= j <= |s|
  {
    forall t :: i <= t < j ==> s[t] !in LineTerminators
  }

  /** `](` at `a`. */
  predicate OpensUrl(s: string, a: int) {
    0 <= a && a + 1 < |s| && s[a] == ']' && s[a + 1] == '('
  }

  /** `s[q..b + 1]` can be read as `\[.*\]\(.*\)` with the label
      `s[q + 1..a]` and the url `s[a + 2..b]`, ignoring laziness. */
  predicate LinkShape(s: string, q: int, a: int, b: int) {
    && 0 <= q < a && a + 2 <= b < |s|
    && s[q] == '[' && OpensUrl(s, a) && s[b] == ')'
    && NoTerminator(s, q + 1, a) && NoTerminator(s, a + 2, b)
  }

  /** The lazy label `.*?` before `\]\(` when it starts at `k`: the first
      `](` at or after `k`, unless a line terminator comes first. */
  function LabelEnd(s: string, k: nat): (r: Option<nat>)
    requires k <= |s|
    ensures r.Some? ==> k <= r.value && OpensUrl(s, r.value) && NoTerminator(s, k, r.value)
    ensures r.Some? ==> forall x :: k <= x < r.value ==> !OpensUrl(s, x)
    ensures r.None? ==> forall a :: k <= a && OpensUrl(s, a) ==> !NoTerminator(s, k, a)
    decreases |s| - k
  {
    if k == |s| then None
    else if OpensUrl(s, k) then Some(k)
    else if s[k] in LineTerminators then None
    else LabelEnd(s, k + 1)
  }

  /** The lazy url `.*?` before `\)` when it starts at `k`: the first `)`
      at or after `k`, unless a line terminator comes first. */
  function UrlEnd(s: string, k: nat): (r: Option<nat>)
    requires k <= |s|
    ensures r.Some? ==> k <= r.value < |s| && s[r.value] == ')' && NoTerminator(s, k, r.value)
    ensures r.Some? ==> forall x :: k <= x < r.value ==> s[x] != ')'
    ensures r.None? ==> forall b :: k <= b < |s| && s[b] == ')' ==> !NoTerminator(s, k, b)
    decreases |s| - k
  {
    if k == |s| then None
    else if s[k] == ')' then Some(k)
    else if s[k] in LineTerminators then None
    else UrlEnd(s, k + 1)
  }

  /** The match of `\[.*?\]\(.*?\)` that starts at `q`, as the position
      `a` of its `](` and `b` of its `)`. Backtracking into a later `](`
      never helps: the stretch it adds to the url was label text, free of
      line terminators, so the first `](` reaches a `)` whenever a later
      one does. */
  function LinkAt(s: string, q: nat): (r: Option<(nat, nat)>)
    requires q <= |s|
    ensures r.Some? ==> q < r.value.0 && r.value.0 + 2 <= r.value.1 < |s|
  {
    if q < |s| && s[q] == '[' then
      match LabelEnd(s, q + 1)
      case None => None
      case Some(a) =>
        match UrlEnd(s, a + 2)
        case None => None
        case Some(b) => Some((a, b))
    else None
  }

  /** A match is a reading of a link. */
  lemma LinkAtShape(s: string, q: nat)
    requires q <= |s| && LinkAt(s, q).Some?
    ensures LinkShape(s, q, LinkAt(s, q).value.0, LinkAt(s, q).value.1)
  {
    var a := LabelEnd(s, q + 1).value;
    var b := UrlEnd(s, a + 2).value;
    assert LinkAt(s, q) == Some((a, b));
  }

  /** Any reading of `s` as a link at `q` is matched, and the match is the
      lexicographically least reading: the shortest label, then the
      shortest url, as the lazy quantifiers demand. */
  lemma ShapeFound(s: string, q: nat, a: int, b: int)
    requires q <= |s| && LinkShape(s, q, a, b)
    ensures LinkAt(s, q).Some?
    ensures var m := LinkAt(s, q).value; m.0 <= a && (m.0 == a ==> m.1 <= b)
  {
    var m := LabelEnd(s, q + 1).value;
    assert m <= a;
    assert NoTerminator(s, m + 2, b) by {
      forall t | m + 2 <= t < b ensures s[t] !in LineTerminators {
        if t < a {
          assert q + 1 <= t;
        } else if t >= a + 2 {
        }
      }
    }
    assert UrlEnd(s, m + 2).Some?;
  }

  /** The match is exactly the least reading, and there is none when no
      reading exists. */
  lemma LinkAtLeast(s: string, q: nat)
    requires q <= |s|
    ensures LinkAt(s, q).Some? ==> forall a, b :: LinkShape(s, q, a, b) ==>
      LinkAt(s, q).value.0 <= a && (LinkAt(s, q).value.0 == a ==> LinkAt(s, q).value.1 <= b)
    ensures LinkAt(s, q).None? <==> forall a, b :: !LinkShape(s, q, a, b)
  {
    forall a, b | LinkShape(s, q, a, b)
      ensures LinkAt(s, q).Some?
      ensures LinkAt(s, q).value.0 <= a && (LinkAt(s, q).value.0 == a ==> LinkAt(s, q).value.1 <= b)
    {
      ShapeFound(s, q, a, b);
    }
    if LinkAt(s, q).Some? {
      LinkAtShape(s, q);
    }
  }

  // ------------------------------------------------------------ the split

  /** The next match at or after `p`, as the start `q` with its `](` at
      `a` and its `)` at `b`. */
  function NextLink(s: string, p: nat): (r: Option<(nat, nat, nat)>)
    requires p <= |s|
    ensures r.Some? ==> p <= r.value.0 < r.value.1 < r.value.2 < |s|
    decreases |s| - p
  {
    match LinkAt(s, p)
    case Some((a, b)) => Some((p, a, b))
    case None => if p == |s| then None else NextLink(s, p + 1)
  }

  /** The next match is the first position at or after `p` where a match
      starts. */
  lemma {:induction false} NextLinkFirst(s: string, p: nat, q: nat, a: nat, b: nat)
    requires p <= |s| && NextLink(s, p) == Some((q, a, b))
    ensures LinkAt(s, q) == Some((a, b))
    ensures forall x :: p <= x < q ==> LinkAt(s, x).None?
    decreases |s| - p
  {
    if LinkAt(s, p).None? {
      NextLinkFirst(s, p + 1, q, a, b);
    }
  }

  /** Without a next match, no match starts at or after `p`. */
  lemma {:induction false} NextLinkNone(s: string, p: nat)
    requires p <= |s| && NextLink(s, p).None?
    ensures forall x :: p <= x <= |s| ==> LinkAt(s, x).None?
    decreases |s| - p
  {
    if p < |s| {
      NextLinkNone(s, p + 1);
    }
  }

  /** The split loop from `p`: the text up to the next match, the match
      itself (the capture group is the whole match), and so on; the text
      after the last match closes the list. */
  function SplitFrom(s: string, p: nat): (parts: seq<string>)
    requires p <= |s|
    ensures |parts| % 2 == 1
    decreases |s| - p
  {
    match NextLink(s, p)
    case None => [s[p..]]
    case Some((q, a, b)) => [s[p..q], s[q..b + 1]] + SplitFrom(s, b + 1)
  }

  /** The parts of the split spell out the text they were cut from. */
  lemma {:induction false} SplitFromFlatten(s: string, p: nat)
    requires p <= |s|
    ensures Flatten(SplitFrom(s, p)) == s[p..]
    decreases |s| - p
  {
    match NextLink(s, p)
    case None =>
    case Some((q, a, b)) =>
      var rest := SplitFrom(s, b + 1);
      SplitFromFlatten(s, b + 1);
      FlattenPair(s[p..q], s[q..b + 1], rest);
      assert s[p..] == s[p..q] + (s[q..b + 1] + s[b + 1..]);
  }

  /** `text.split(/(\[.*?\]\(.*?\))/g)`. */
  function SplitLinks(s: string): (parts: seq<string>)
    ensures |parts| % 2 == 1 && Flatten(parts) == s
  {
    SplitFromFlatten(s, 0);
    SplitFrom(s, 0)
  }

  lemma FlattenPair(x: string, y: string, rest: seq<string>)
    ensures Flatten([x, y] + rest) == x + (y + Flatten(rest))
  {
    assert ([x, y] + rest)[1..][1..] == rest;
  }

  /** An even part of the split, number `2 * n`, is the text between two
      matches: no match starts inside it. */
  lemma {:induction false} PlainPart(s: string, p: nat, n: nat) returns (x: nat, y: nat)
    requires p <= |s| && 2 * n < |SplitFrom(s, p)|
    ensures p <= x <= y <= |s| && SplitFrom(s, p)[2 * n] == s[x..y]
    ensures forall z :: x <= z < y ==> LinkAt(s, z).None?
    decreases n
  {
    SplitFromLast(s, p);
    if |SplitFrom(s, p)| == 1 {
      NextLinkNone(s, p);
      x, y := p, |s|;
    } else {
      var q0, a0, b0 := NextLinkCut(s, p);
      if n == 0 {
        NextLinkFirst(s, p, q0, a0, b0);
        x, y := p, q0;
      } else {
        var rest := SplitFrom(s, b0 + 1);
        assert SplitFrom(s, p)[2 * n] == rest[2 * (n - 1)];
        x, y := PlainPart(s, b0 + 1, n - 1);
      }
    }
  }

  /** An odd part of the split, number `2 * n + 1`, is a whole match. */
  lemma {:induction false} MatchPart(s: string, p: nat, n: nat) returns (q: nat, a: nat, b: nat)
    requires p <= |s| && 2 * n + 1 < |SplitFrom(s, p)|
    ensures p <= q <= |s| && LinkAt(s, q) == Some((a, b))
    ensures SplitFrom(s, p)[2 * n + 1] == s[q..b + 1]
    decreases n
  {
    var q0, a0, b0 := NextLinkCut(s, p);
    var rest := SplitFrom(s, b0 + 1);
    if n == 0 {
      NextLinkMatches(s, p, q0, a0, b0);
      q, a, b := q0, a0, b0;
    } else {
      assert SplitFrom(s, p)[2 * n + 1] == rest[2 * (n - 1) + 1];
      q, a, b := MatchPart(s, b0 + 1, n - 1);
    }
  }

  /** A split of one part is the rest of the text, left when no match
      follows. */
  lemma SplitFromLast(s: string, p: nat)
    requires p <= |s|
    ensures |SplitFrom(s, p)| == 1 <==> NextLink(s, p).None?
    ensures |SplitFrom(s, p)| == 1 ==> SplitFrom(s, p) == [s[p..]]
  {
  }

  /** A split with more than one part was cut at the next match. */
  lemma NextLinkCut(s: string, p: nat) returns (q: nat, a: nat, b: nat)
    requires p <= |s| && |SplitFrom(s, p)| > 1
    ensures NextLink(s, p) == Some((q, a, b)) && p <= q < a < b < |s|
    ensures SplitFrom(s, p) == [s[p..q], s[q..b + 1]] + SplitFrom(s, b + 1)
  {
    var r := NextLink(s, p);
    q, a, b := r.value.0, r.value.1, r.value.2;
  }

  /** The next match is a match. */
  lemma NextLinkMatches(s: string, p: nat, q: nat, a: nat, b: nat)
    requires p <= |s| && NextLink(s, p) == Some((q, a, b))
    ensures LinkAt(s, q) == Some((a, b))
  {
    NextLinkFirst(s, p, q, a, b);
  }

  // --------------------------------------------------------- anchored link

  /** `part.match(/^\[(.*?)\]\((.*?)\)$/)`: the label runs to the first
      `](`; the url then runs to the final `)`. As in `LinkAt`, a later
      `](` cannot succeed where the first one fails. */
  function AnchoredLink(p: string): (r: Option<(string, string)>)
    ensures r.Some? ==> p == "[" + r.value.0 + "](" + r.value.1 + ")"
  {
    if |p| < 4 || p[0] != '[' || p[|p| - 1] != ')' then None
    else
      match LabelEnd(p, 1)
      case None => None
      case Some(a) =>
        if a + 2 <= |p| - 1 && NoTerminator(p, a + 2, |p| - 1)
        then Some((p[1..a], p[a + 2..|p| - 1]))
        else None
  }

  /** The whole of `p` can be read as a link whose `](` is at `a`. */
  predicate WholeShape(p: string, a: int) {
    LinkShape(p, 0, a, |p| - 1)
  }

  /** A whole part is a link exactly when it can be read as one; the
      label and url are the pieces it is built from, and the label holds
      no `](` of its own. */
  lemma AnchoredLinkIff(p: string)
    ensures AnchoredLink(p).Some? <==> exists a :: WholeShape(p, a)
    ensures AnchoredLink(p).Some? ==>
      var (l, u) := AnchoredLink(p).value;
      && p == "[" + l + "](" + u + ")"
      && LinkShape(p, 0, |l| + 1, |p| - 1)
      && forall x :: 1 <= x < |l| + 1 ==> !OpensUrl(p, x)
  {
    forall a | WholeShape(p, a) ensures AnchoredLink(p).Some? {
      AnchoredFound(p, a);
    }
    if AnchoredLink(p).Some? {
      var a := LabelEnd(p, 1).value;
      var (l, u) := AnchoredLink(p).value;
      assert p == [p[0]] + p[1..a] + p[a..a + 2] + p[a + 2..|p| - 1] + [p[|p| - 1]];
      assert p[a..a + 2] == "](";
      assert WholeShape(p, a);
    }
  }

  lemma AnchoredFound(p: string, a: int)
    requires LinkShape(p, 0, a, |p| - 1)
    ensures AnchoredLink(p).Some?
  {
    var m := LabelEnd(p, 1).value;
    assert m <= a;
    assert m + 1 != |p| - 1;
    assert NoTerminator(p, m + 2, |p| - 1) by {
      forall t | m + 2 <= t < |p| - 1 ensures p[t] !in LineTerminators {
        if t < a {
          assert 1 <= t;
        } else if t >= a + 2 {
        }
      }
    }
  }

  // ------------------------------------------------------------ segments

  function ToSegment(part: string): (seg: Segment)
    ensures Raw(seg) == part
  {
    match AnchoredLink(part)
    case None => Plain(part)
    case Some((l, u)) => AnchoredLinkIff(part); Link(l, u)
  }

  /** `parseLinks`: the parts of the split, each a link when it is one as
      a whole and plain text otherwise. */
  function ParseLinks(text: string): (segs: seq<Segment>)
    ensures |segs| == |SplitLinks(text)|
    ensures forall i :: 0 <= i < |segs| ==> Raw(segs[i]) == SplitLinks(text)[i]
  {
    var parts := SplitLinks(text);
    seq(|parts|, i requires 0 <= i < |parts| => ToSegment(parts[i]))
  }

  function RawAll(segs: seq<Segment>): (r: seq<string>)
    ensures |r| == |segs| && forall i :: 0 <= i < |r| ==> r[i] == Raw(segs[i])
  {
    if segs == [] then [] else [Raw(segs[0])] + RawAll(segs[1..])
  }

  /** Nothing of the detail line is lost or reordered: the segments,
      written back, spell the line. */
  lemma ParseLinksRoundTrip(text: string)
    ensures Flatten(RawAll(ParseLinks(text))) == text
  {
    assert RawAll(ParseLinks(text)) == SplitLinks(text);
  }

  /** Matches and the text between them alternate: a segment is a link
      exactly at the odd positions, and its label and url are those of
      the match. */
  lemma ParseLinksAlternate(text: string, i: int)
    requires 0 <= i < |ParseLinks(text)|
    ensures ParseLinks(text)[i].Link? <==> i % 2 == 1
    ensures i % 2 == 1 ==>
      exists q: nat, a, b :: q <= |text| && LinkAt(text, q) == Some((a, b))
        && ParseLinks(text)[i] == Link(text[q + 1..a], text[a + 2..b])
  {
    if i % 2 == 1 {
      assert i == 2 * (i / 2) + 1;
      OddSegment(text, i / 2);
    } else {
      assert i == 2 * (i / 2);
      EvenSegment(text, i / 2);
    }
  }

  /** Segment number `2 * n + 1` is the link of a match. */
  lemma OddSegment(text: string, n: nat)
    requires 2 * n + 1 < |ParseLinks(text)|
    ensures exists q: nat, a, b ::
      && q <= |text| && LinkAt(text, q) == Some((a, b))
      && ParseLinks(text)[2 * n + 1] == Link(text[q + 1..a], text[a + 2..b])
  {
    var part := SplitLinks(text)[2 * n + 1];
    assert ParseLinks(text)[2 * n + 1] == ToSegment(part);
    var q, a, b := MatchPart(text, 0, n);
    MatchIsAnchored(text, q, a, b);
  }

  /** Segment number `2 * n` is plain text. */
  lemma EvenSegment(text: string, n: nat)
    requires 2 * n < |ParseLinks(text)|
    ensures ParseLinks(text)[2 * n].Plain?
  {
    var part := SplitLinks(text)[2 * n];
    assert ParseLinks(text)[2 * n] == ToSegment(part);
    var x, y := PlainPart(text, 0, n);
    PlainHasNoShape(text, x, y);
    AnchoredLinkIff(part);
  }

  /** A match, cut out of the line, is a link as a whole, with the label
      and url of the match. */
  lemma MatchIsAnchored(s: string, q: nat, a: nat, b: nat)
    requires q <= |s| && LinkAt(s, q) == Some((a, b))
    ensures AnchoredLink(s[q..b + 1]) == Some((s[q + 1..a], s[a + 2..b]))
  {
    LinkAtShape(s, q);
    var p := s[q..b + 1];
    var m := a - q;
    assert OpensUrl(p, m);
    forall x | 1 <= x < m ensures !OpensUrl(p, x) {
      assert !OpensUrl(s, q + x);
    }
    assert NoTerminator(p, 1, m);
    LabelEndAt(p, 1, m);
    assert NoTerminator(p, m + 2, |p| - 1);
    assert p[1..m] == s[q + 1..a] by {
      forall t | 0 <= t < m - 1 ensures p[1..m][t] == s[q + 1..a][t] {
        assert p[1 + t] == s[q + 1 + t];
      }
    }
    var u, v := p[m + 2..|p| - 1], s[a + 2..b];
    assert u == v by {
      forall t | 0 <= t < |u| ensures u[t] == v[t] {
        assert p[m + 2 + t] == s[a + 2 + t];
      }
    }
  }

  /** `LabelEnd` stops at the first `](` when no line terminator comes
      before it. */
  lemma {:induction false} LabelEndAt(s: string, k: nat, m: nat)
    requires k <= m && OpensUrl(s, m) && NoTerminator(s, k, m)
    requires forall x :: k <= x < m ==> !OpensUrl(s, x)
    ensures LabelEnd(s, k) == Some(m)
    decreases m - k
  {
    if k < m {
      LabelEndAt(s, k + 1, m);
    }
  }

  /** Text between matches holds no reading of a link at all, not even
      one that its cut-off end would complete: each such reading would
      also be one in the whole line, where no match starts. */
  lemma PlainHasNoShape(s: string, x: nat, y: nat)
    requires x <= y <= |s| && forall z :: x <= z < y ==> LinkAt(s, z).None?
    ensures forall q, a, b :: !LinkShape(s[x..y], q, a, b)
  {
    var p := s[x..y];
    forall q, a, b | LinkShape(p, q, a, b) ensures LinkAt(s, x + q).Some? {
      assert LinkShape(s, x + q, x + a, x + b) by {
        assert forall t :: q + 1 <= t < a ==> p[t] == s[x + t];
        assert forall t :: a + 2 <= t < b ==> p[t] == s[x + t];
      }
      ShapeFound(s, x + q, x + a, x + b);
    }
  }
}
