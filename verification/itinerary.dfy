/** The itinerary view's text logic: the icon and colour of an activity,
    and the description renderer that emphasises one known phrase per line
    and breaks between lines. */
module Itinerary {
  import opened Wrappers
  import opened Text
  import Seqs

  /** The kinds of activity. The stored data is not checked against the
      enumeration, so any other value is kept as `Unknown`. */
  datatype ActivityType = Sightseeing | Food | Travel | Rest | Activity | Cruise | Unknown(raw: string)

  datatype ActivityEntry = ActivityEntry(
    time: string, title: string, description: string, kind: ActivityType, location: Option<string>)

  datatype Icon = Plane | Bus | Utensils | MapPin | BedDouble | Flower | Ship

  // ----------------------------------------------------------- the icon

  /** The words that make a travel activity a flight. */
  const FlightWords: seq<string> := ["flight", "ci753", "tpe", "sin", "plane", "airport"]

  /** The lowercased title contains one of the flight words. */
  predicate FlightTitle(title: string) {
    exists j :: 0 <= j < |FlightWords| && Contains(AsciiLower(title), FlightWords[j])
  }

  /** `getActivityIcon`: a plane or a bus for travel, decided by the title;
      a fixed icon for every other kind, the map pin by default. */
  function ActivityIcon(a: ActivityEntry): (icon: Icon)
    ensures a.kind == Travel ==> (icon == Plane <==> FlightTitle(a.title)) && icon in {Plane, Bus}
    ensures a.kind != Travel ==> icon !in {Plane, Bus}
    ensures a.kind != Travel ==> (icon == MapPin <==> a.kind in {Sightseeing} || a.kind.Unknown?)
  {
    if a.kind == Travel then
      var t := AsciiLower(a.title);
      FlightWordsSpelled();
      if Contains(t, "flight") || Contains(t, "ci753") || Contains(t, "tpe")
        || Contains(t, "sin") || Contains(t, "plane") || Contains(t, "airport")
      then Plane
      else Bus
    else
      match a.kind
      case Food => Utensils
      case Sightseeing => MapPin
      case Rest => BedDouble
      case Activity => Flower
      case Cruise => Ship
      case _ => MapPin
  }

  lemma FlightWordsSpelled()
    ensures FlightWords[0] == "flight" && FlightWords[1] == "ci753" && FlightWords[2] == "tpe"
    ensures FlightWords[3] == "sin" && FlightWords[4] == "plane" && FlightWords[5] == "airport"
  {
  }

  /** Apart from the shared map pin, the icon tells the kind. */
  lemma IconTellsKind(a: ActivityEntry, b: ActivityEntry)
    requires ActivityIcon(a) == ActivityIcon(b) && ActivityIcon(a) != MapPin
    ensures a.kind == b.kind || (a.kind == Travel && b.kind == Travel)
  {
  }

  /** Lowercasing twice is lowercasing once. */
  lemma AsciiLowerIdempotent(s: string)
    ensures AsciiLower(AsciiLower(s)) == AsciiLower(s)
  {
    var l := AsciiLower(s);
    forall i | 0 <= i < |l| ensures AsciiLower(l)[i] == l[i] {
      assert !('A' <= l[i] <= 'Z');
    }
  }

  /** The travel icon does not depend on the case of ASCII letters in the
      title. */
  lemma IconIgnoresCase(a: ActivityEntry)
    ensures ActivityIcon(a) == ActivityIcon(a.(title := AsciiLower(a.title)))
  {
    AsciiLowerIdempotent(a.title);
  }

  /** The flight words are matched anywhere in the title, so a travel
      activity that mentions Singapore shows a plane whatever the vehicle. */
  lemma SingaporeIsFlight(a: ActivityEntry)
    requires a.kind == Travel && a.title == "Bus to Singapore"
    ensures ActivityIcon(a) == Plane
  {
    var t := AsciiLower(a.title);
    assert a.title[7] == 'S' && a.title[8] == 'i' && a.title[9] == 'n';
    assert t[7..10] == "sin";
    FlightWordsSpelled();
    assert OccursAt(t, FlightWords[3], 7);
  }

  // --------------------------------------------------------- the colour

  /** The colour family of an activity's badge classes. */
  datatype Palette = AmberBadge | BrandBadge | RoseBadge | SlateBadge | EmeraldBadge | SkyBadge | StoneBadge

  /** `getActivityColor`: a colour family per kind, stone by default. */
  function ActivityColor(kind: ActivityType): (color: Palette)
    ensures kind.Unknown? <==> color == StoneBadge
  {
    match kind
    case Food => AmberBadge
    case Travel => BrandBadge
    case Sightseeing => RoseBadge
    case Rest => SlateBadge
    case Activity => EmeraldBadge
    case Cruise => SkyBadge
    case Unknown(_) => StoneBadge
  }

  /** Two kinds share a colour only when both are unknown. */
  lemma ColorInjective(a: ActivityType, b: ActivityType)
    requires ActivityColor(a) == ActivityColor(b)
    ensures a == b || (a.Unknown? && b.Unknown?)
  {
  }

  // ------------------------------------------------------- the phrases

  datatype Emphasis = Red | BrandBlue | Orange

  const RedPhrases: seq<string> := [
    "建議 06:00-06:30AM 抵達機場",
    "19:45 & 20:45戶外天空樹燈光秀",
    "22:00前一定要上船",
    "18:00前回郵輪上"
  ]

  const BrandPhrases: seq<string> := [
    "SMRT機場➔丹那美拉(轉綠線)➔政府大廈",
    "SMRT政府大廈➔萊佛士坊",
    "SMRT直落亞逸➔海灣舫",
    "SMRT海灣舫➔濱海灣(轉紅線)➔政府大廈",
    "SMRT政府大廈➔濱海南碼頭",
    "SMRT政府大廈➔南華園(轉紫線)➔港灣",
    "轉 單軌電車Vivo City➔resorts World",
    "單軌電車resorts World➔Vivo City",
    "SMRT濱海灣➔政府大廈",
    "轉 SMRT港灣➔克拉碼頭",
    "SMRT濱海南碼頭➔政府大廈(轉綠)➔丹那美拉➔機場"
  ]

  const OrangePhrases: seq<string> := ["安德烈教堂"]

  /** Some phrase of the list occurs in the line. */
  predicate AnyIn(line: string, phrases: seq<string>) {
    exists j :: 0 <= j < |phrases| && Contains(line, phrases[j])
  }

  /** `phrases.find(p => line.includes(p))`: the first phrase of the list,
      in list order, that occurs in the line. */
  function FindPhrase(line: string, phrases: seq<string>): (r: Option<string>)
    ensures r.None? <==> !AnyIn(line, phrases)
    ensures r.Some? ==>
      exists j :: 0 <= j < |phrases| && phrases[j] == r.value && Contains(line, r.value)
        && forall k :: 0 <= k < j ==> !Contains(line, phrases[k])
  {
    if phrases == [] then None
    else if Contains(line, phrases[0]) then Some(phrases[0])
    else
      var r := FindPhrase(line, phrases[1..]);
      assert forall j :: 1 <= j < |phrases| ==> phrases[j] == phrases[1..][j - 1];
      r
  }

  /** A found phrase counts only when it is a non-empty string. */
  predicate Truthy(r: Option<string>) {
    r.Some? && r.value != []
  }

  // ------------------------------------------------------- the split

  /** `s.split(sep)` for a non-empty separator, from index `from` on: the
      pieces between successive non-overlapping occurrences. */
  function SplitOn(s: string, sep: string, from: nat): (parts: seq<string>)
    requires sep != [] && from <= |s|
    ensures |parts| >= 1
    decreases |s| - from
  {
    match IndexOfFrom(s, sep, from)
    case None => [s[from..]]
    case Some(i) => [s[from..i]] + SplitOn(s, sep, i + |sep|)
  }

  /** `parts.join(sep)`. */
  function JoinOn(parts: seq<string>, sep: string): string
    requires |parts| >= 1
  {
    if |parts| == 1 then parts[0] else parts[0] + sep + JoinOn(parts[1..], sep)
  }

  /** Joining the pieces with the separator gives the text back. */
  lemma {:induction false} SplitOnJoin(s: string, sep: string, from: nat)
    requires sep != [] && from <= |s|
    ensures JoinOn(SplitOn(s, sep, from), sep) == s[from..]
    decreases |s| - from
  {
    match IndexOfFrom(s, sep, from)
    case None =>
    case Some(i) =>
      var rest := SplitOn(s, sep, i + |sep|);
      SplitOnJoin(s, sep, i + |sep|);
      assert ([s[from..i]] + rest)[1..] == rest;
      assert s[from..i + |sep|] == s[from..i] + sep;
      assert s[from..] == s[from..i + |sep|] + s[i + |sep|..];
  }

  /** No piece of the split contains the separator. */
  lemma {:induction false} SplitOnPieces(s: string, sep: string, from: nat)
    requires sep != [] && from <= |s|
    ensures forall k :: 0 <= k < |SplitOn(s, sep, from)| ==> !Contains(SplitOn(s, sep, from)[k], sep)
    decreases |s| - from
  {
    var parts := SplitOn(s, sep, from);
    match IndexOfFrom(s, sep, from)
    case None =>
      NoneInSlice(s, sep, from, |s|);
      assert s[from..|s|] == s[from..];
    case Some(i) =>
      assert parts == [s[from..i]] + SplitOn(s, sep, i + |sep|);
      NoneInSlice(s, sep, from, i);
      SplitOnPieces(s, sep, i + |sep|);
      assert forall k :: 1 <= k < |parts| ==> parts[k] == SplitOn(s, sep, i + |sep|)[k - 1];
  }

  /** A slice holds no occurrence when the string has none starting inside
      it. */
  lemma NoneInSlice(s: string, w: string, a: nat, b: nat)
    requires w != [] && a <= b <= |s|
    requires forall k :: a <= k < b ==> !OccursAt(s, w, k)
    ensures !Contains(s[a..b], w)
  {
    var t := s[a..b];
    forall m | 0 <= m <= |t| ensures !OccursAt(t, w, m) {
      if m + |w| <= |t| {
        var u, v := t[m..m + |w|], s[a + m..a + m + |w|];
        assert forall x :: 0 <= x < |w| ==> u[x] == v[x];
        assert t[m..m + |w|] == s[a + m..a + m + |w|];
        assert !OccursAt(s, w, a + m);
      }
    }
  }

  // ----------------------------------------------------- one line

  /** What a line renders to: the line itself, or the text before the
      phrase, the emphasised phrase and the text after it. */
  datatype Content =
    | Plain(text: string)
    | Marked(before: string, phrase: string, emphasis: Emphasis, after: string)

  /** The text a reader sees. */
  function Shown(c: Content): string {
    match c
    case Plain(t) => t
    case Marked(b, p, _, a) => b + p + a
  }

  /** `line.split(p)` rendered as `parts[0]`, the phrase, `parts[1]`; a
      missing `parts[1]` renders as nothing. */
  function Emphasise(line: string, p: string, e: Emphasis): (c: Content)
    requires p != []
    ensures c.Marked? && c.phrase == p && c.emphasis == e
    ensures !Contains(c.before, p) && !Contains(c.after, p)
  {
    var parts := SplitOn(line, p, 0);
    SplitOnPieces(line, p, 0);
    assert !Contains(parts[0], p);
    assert |parts| > 1 ==> !Contains(parts[1], p);
    Marked(parts[0], p, e, if |parts| > 1 then parts[1] else [])
  }

  /** The split around the phrase: `before` runs up to its first occurrence,
      what is shown is a prefix of the line, it is the whole line exactly
      when the phrase does not occur again, and otherwise what is dropped
      starts with the second occurrence. */
  lemma SplitAround(line: string, p: string, e: Emphasis)
    requires p != [] && Contains(line, p)
    ensures var c := Emphasise(line, p, e);
      && OccursAt(line, p, |c.before|)
      && (forall k :: 0 <= k < |c.before| ==> !OccursAt(line, p, k))
      && |Shown(c)| <= |line| && line[..|Shown(c)|] == Shown(c)
      && !Contains(c.after, p)
      && (Shown(c) == line <==> forall k :: |c.before| + |p| <= k ==> !OccursAt(line, p, k))
      && (Shown(c) != line ==> OccursAt(line, p, |Shown(c)|))
  {
    var i, j := FirstTwoPieces(line, p);
    var c := Emphasise(line, p, e);
    assert c.before == line[..i] && c.after == line[i + |p|..j];
    assert Shown(c) == line[..i] + p + line[i + |p|..j];
    AroundSlices(line, p, i, j);
  }

  /** The same facts about the slices alone: the text before the first
      occurrence, the phrase and the text up to the next occurrence make
      up the line up to that next occurrence. */
  lemma AroundSlices(line: string, p: string, i: nat, j: nat)
    requires p != [] && i + |p| <= j <= |line| && OccursAt(line, p, i)
    requires forall k :: i + |p| <= k < j ==> !OccursAt(line, p, k)
    requires j < |line| ==> OccursAt(line, p, j)
    ensures line[..i] + p + line[i + |p|..j] == line[..j]
    ensures j == |line| <==> forall k :: i + |p| <= k ==> !OccursAt(line, p, k)
  {
    assert line[i..i + |p|] == p;
    assert line[..j] == line[..i] + line[i..i + |p|] + line[i + |p|..j];
  }

  /** The first two pieces of the split: the text before the first
      occurrence at `i`, and the text from its end up to the next occurrence
      at `j`, or to the end of the line when there is none. */
  lemma FirstTwoPieces(line: string, p: string) returns (i: nat, j: nat)
    requires p != [] && Contains(line, p)
    ensures i + |p| <= j <= |line| && OccursAt(line, p, i)
    ensures forall k :: 0 <= k < i ==> !OccursAt(line, p, k)
    ensures forall k :: i + |p| <= k < j ==> !OccursAt(line, p, k)
    ensures j < |line| ==> OccursAt(line, p, j)
    ensures var parts := SplitOn(line, p, 0);
      |parts| >= 2 && parts[0] == line[..i] && parts[1] == line[i + |p|..j]
  {
    ContainsIffFound(line, p);
    i := IndexOfFrom(line, p, 0).value;
    SplitOnFound(line, p, 0, i);
    j := FirstPiece(line, p, i + |p|);
  }

  /** The first piece of the split from `from` runs to the next occurrence
      at `j`, or to the end of the line when there is none. */
  lemma FirstPiece(line: string, p: string, from: nat) returns (j: nat)
    requires p != [] && from <= |line|
    ensures from <= j <= |line|
    ensures forall k :: from <= k < j ==> !OccursAt(line, p, k)
    ensures j < |line| ==> OccursAt(line, p, j)
    ensures SplitOn(line, p, from)[0] == line[from..j]
  {
    match IndexOfFrom(line, p, from)
    case None =>
      j := |line|;
      SplitOnLast(line, p, from);
    case Some(k) =>
      j := k;
      SplitOnFound(line, p, from, j);
  }

  /** The split at a found occurrence: the piece before it, then the split
      of the rest. */
  lemma SplitOnFound(s: string, sep: string, from: nat, i: nat)
    requires sep != [] && from <= |s| && IndexOfFrom(s, sep, from) == Some(i)
    ensures SplitOn(s, sep, from) == [s[from..i]] + SplitOn(s, sep, i + |sep|)
  {
  }

  /** Without a further occurrence the rest is the last piece. */
  lemma SplitOnLast(s: string, sep: string, from: nat)
    requires sep != [] && from <= |s| && IndexOfFrom(s, sep, from).None?
    ensures SplitOn(s, sep, from) == [s[from..]]
  {
  }

  /** One line of a description: the red phrases first, then the brand
      phrases, then the orange one; a line with none is left as it is. */
  function RenderLine(line: string): (c: Content)
    ensures c.Plain? ==> c.text == line
    ensures c.Marked? ==> c.phrase != [] && Contains(line, c.phrase)
  {
    var red := FindPhrase(line, RedPhrases);
    var brand := FindPhrase(line, BrandPhrases);
    var orange := FindPhrase(line, OrangePhrases);
    if Truthy(red) then Emphasise(line, red.value, Red)
    else if Truthy(brand) then Emphasise(line, brand.value, BrandBlue)
    else if Truthy(orange) then Emphasise(line, orange.value, Orange)
    else Plain(line)
  }

  /** No phrase is empty, so finding one always counts. */
  lemma PhrasesNonEmpty()
    ensures forall j :: 0 <= j < |RedPhrases| ==> RedPhrases[j] != []
    ensures forall j :: 0 <= j < |BrandPhrases| ==> BrandPhrases[j] != []
    ensures forall j :: 0 <= j < |OrangePhrases| ==> OrangePhrases[j] != []
  {
  }

  /** The tiers: a red phrase wins whatever else the line holds, a brand
      phrase wins over the orange one, the chosen phrase is the tier's
      first one in list order, and a line with no phrase is unchanged. */
  lemma TierPriority(line: string)
    ensures var c := RenderLine(line);
      && (AnyIn(line, RedPhrases) ==>
            c == Emphasise(line, FindPhrase(line, RedPhrases).value, Red))
      && (!AnyIn(line, RedPhrases) && AnyIn(line, BrandPhrases) ==>
            c == Emphasise(line, FindPhrase(line, BrandPhrases).value, BrandBlue))
      && (!AnyIn(line, RedPhrases) && !AnyIn(line, BrandPhrases) && AnyIn(line, OrangePhrases) ==>
            c == Emphasise(line, FindPhrase(line, OrangePhrases).value, Orange))
      && (!AnyIn(line, RedPhrases) && !AnyIn(line, BrandPhrases) && !AnyIn(line, OrangePhrases) ==>
            c == Plain(line))
  {
    PhrasesNonEmpty();
  }

  // ----------------------------------------------------- a description

  /** A rendered line and whether a line break follows it. */
  datatype RenderedLine = RenderedLine(content: Content, breakAfter: bool)

  /** `renderDescription`: the description split at each `\n`, every line
      rendered, a break after every line but the last. */
  function RenderDescription(text: string): (r: seq<RenderedLine>)
    ensures |r| == |Separators(text, {'\n'})| + 1
    ensures forall idx :: 0 <= idx < |r| ==>
      r[idx].content == RenderLine(SplitWhere(text, {'\n'})[idx])
    ensures forall idx :: 0 <= idx < |r| ==> (r[idx].breakAfter <==> idx < |r| - 1)
  {
    var lines := SplitWhere(text, {'\n'});
    seq(|lines|, idx requires 0 <= idx < |lines| =>
      RenderedLine(RenderLine(lines[idx]), idx < |lines| - 1))
  }

  function HasBreak(l: RenderedLine): bool {
    l.breakAfter
  }

  /** n lines are separated by exactly n - 1 breaks, and none follows the
      last line. */
  lemma BreakCount(text: string)
    ensures var r := RenderDescription(text);
      |Seqs.Filter(r, HasBreak)| == |r| - 1 && !r[|r| - 1].breakAfter
  {
    BreaksBetween(RenderDescription(text));
  }

  /** The filter count for any lines whose breaks follow all but the last. */
  lemma BreaksBetween(r: seq<RenderedLine>)
    requires |r| >= 1 && forall idx :: 0 <= idx < |r| ==> (r[idx].breakAfter <==> idx < |r| - 1)
    ensures |Seqs.Filter(r, HasBreak)| == |r| - 1
  {
    var init := r[..|r| - 1];
    assert r == init + [r[|r| - 1]];
    Seqs.FilterAppend(init, [r[|r| - 1]], HasBreak);
    FilterAll(init, HasBreak);
    assert Seqs.Filter([r[|r| - 1]], HasBreak) == [];
  }

  /** Filtering keeps a sequence whose every element passes. */
  lemma {:induction false} FilterAll<T>(xs: seq<T>, p: T -> bool)
    requires forall i :: 0 <= i < |xs| ==> p(xs[i])
    ensures Seqs.Filter(xs, p) == xs
  {
    if xs != [] {
      FilterAll(xs[1..], p);
    }
  }
}
