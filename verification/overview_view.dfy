/** The rows `renderOverviewContent` draws: one per non-blank line of the
    overview, nothing for a line the parser rejects, and for a kept line
    its day badge, its highlighted title, its tag badge and its detail
    lines with their links. */
module OverviewView {
  import opened Wrappers
  import opened Text
  import Overview
  import Highlight
  import Links
  import Seqs

  /** One drawn row. `emphasised` is the red day badge, `connector` the
      vertical line drawn down to the next row. */
  datatype DayRow = DayRow(
    dayLabel: string,
    emphasised: bool,
    connector: bool,
    title: seq<Highlight.TitlePart>,
    badge: Option<string>,
    details: seq<seq<Links.Segment>>)

  /** The tag is drawn only when it is a non-empty string: an empty `[]`
      tag is falsy and draws no badge. */
  function Badge(tag: Option<string>): (badge: Option<string>)
    ensures badge.Some? <==> tag.Some? && tag.value != []
    ensures badge.Some? ==> badge == tag
  {
    if tag == Some([]) then None else tag
  }

  /** Each detail line with its links parsed. */
  function DetailSegments(details: seq<string>): (r: seq<seq<Links.Segment>>)
    ensures |r| == |details|
    ensures forall j :: 0 <= j < |r| ==> Flatten(Links.RawAll(r[j])) == details[j]
  {
    var r := seq(|details|, j requires 0 <= j < |details| => Links.ParseLinks(details[j]));
    assert forall j :: 0 <= j < |r| ==> Flatten(Links.RawAll(r[j])) == details[j] by {
      forall j | 0 <= j < |r| ensures Flatten(Links.RawAll(r[j])) == details[j] {
        Links.ParseLinksRoundTrip(details[j]);
      }
    }
    r
  }

  /** The row of the non-blank line at `idx` out of `count`. */
  function RenderRow(line: string, idx: nat, count: nat): (row: Option<DayRow>)
    ensures row.Some? <==> Overview.ParseLine(line).Some?
    ensures row.Some? ==> var o := Overview.ParseLine(line).value;
      && row.value.dayLabel == o.dayLabel
      && Flatten(Highlight.Texts(row.value.title)) == o.title
      && (row.value.badge.Some? <==> o.tag.Some? && o.tag.value != [])
      && (row.value.badge.Some? ==> row.value.badge == o.tag)
      && |row.value.details| == |o.details|
  {
    match Overview.ParseLine(line)
    case None => None
    case Some(o) =>
      Some(DayRow(o.dayLabel, idx == 0 || idx == 6, idx != count - 1,
        Highlight.HighlightTitle(o.title), Badge(o.tag), DetailSegments(o.details)))
  }

  /** The whole overview: one entry per non-blank line, in order, `None`
      where the line draws nothing. */
  function RenderOverview(text: string): (rows: seq<Option<DayRow>>)
    ensures |rows| == |Overview.OverviewLines(text)|
    ensures var pieces := SplitWhere(text, {'\n'});
      && |rows| == Seqs.CountIf(pieces, Overview.NonBlank)
      && forall i :: 0 <= i < |pieces| && Trim(pieces[i]) != [] ==>
        var k := Seqs.CountIf(pieces[..i], Overview.NonBlank);
        k < |rows| && (rows[k].Some? <==> Overview.ParseLine(pieces[i]).Some?)
  {
    var lines := Overview.OverviewLines(text);
    seq(|lines|, i requires 0 <= i < |lines| => RenderRow(lines[i], i, |lines|))
  }

  /** A row is drawn exactly for a line the parser keeps, and it shows that
      record: its day label, its title spelled out in full, its tag when it
      is not empty and every detail line in full. */
  lemma RowShowsRecord(text: string, i: int)
    requires 0 <= i < |RenderOverview(text)|
    ensures var line := Overview.OverviewLines(text)[i];
      var row := RenderOverview(text)[i];
      && (row.Some? <==> Overview.ParseLine(line).Some?)
      && (row.Some? ==>
        var o := Overview.ParseLine(line).value;
        && row.value.dayLabel == o.dayLabel
        && Flatten(Highlight.Texts(row.value.title)) == o.title
        && (row.value.badge.Some? <==> o.tag.Some? && o.tag.value != [])
        && (row.value.badge.Some? ==> row.value.badge == o.tag)
        && |row.value.details| == |o.details|
        && forall j :: 0 <= j < |o.details| ==> Flatten(Links.RawAll(row.value.details[j])) == o.details[j])
  {
  }

  /** The red badge and the connector go by the position among the
      non-blank lines, rejected ones included: the first and the seventh
      non-blank lines are red, and every row but the one of the last
      non-blank line has a connector, even when only rejected lines follow
      it. */
  lemma RowPosition(text: string, i: int)
    requires 0 <= i < |RenderOverview(text)| && RenderOverview(text)[i].Some?
    ensures var row := RenderOverview(text)[i].value;
      && (row.emphasised <==> i == 0 || i == 6)
      && (row.connector <==> i < |RenderOverview(text)| - 1)
  {
  }

  /** The drawn rows are the parsed records, in order and one for one:
      the k-th drawn row shows everything of the k-th record. */
  lemma RowsAreRecords(text: string)
    ensures |Somes(RenderOverview(text))| == |Overview.ParseOverview(text)|
    ensures forall k :: 0 <= k < |Somes(RenderOverview(text))| ==>
      Shows(Somes(RenderOverview(text))[k], Overview.ParseOverview(text)[k])
  {
    var lines := Overview.OverviewLines(text);
    var rows := RenderOverview(text);
    var xs := seq(|lines|, i requires 0 <= i < |lines| => Overview.ParseLine(lines[i]));
    forall i | 0 <= i < |rows|
      ensures rows[i].Some? <==> xs[i].Some?
      ensures rows[i].Some? ==> Shows(rows[i].value, xs[i].value)
    {
      RowShowsRecord(text, i);
    }
    SomesAligned(rows, xs, Shows);
  }

  /** The row shows the record: its day label, its title spelled out in
      full, its tag exactly when the tag is not empty, and each detail
      line spelled out in full by its segments. */
  predicate Shows(row: DayRow, o: Overview.OverviewLine) {
    && row.dayLabel == o.dayLabel
    && Flatten(Highlight.Texts(row.title)) == o.title
    && (row.badge.Some? <==> o.tag.Some? && o.tag.value != [])
    && (row.badge.Some? ==> row.badge == o.tag)
    && |row.details| == |o.details|
    && forall j :: 0 <= j < |o.details| ==> Flatten(Links.RawAll(row.details[j])) == o.details[j]
  }

  /** Two sequences with values at the same places, related place by place,
      keep the same number of values, related in the same order. */
  lemma {:induction false} SomesAligned<A, B>(xs: seq<Option<A>>, ys: seq<Option<B>>, rel: (A, B) -> bool)
    requires |xs| == |ys|
    requires forall i :: 0 <= i < |xs| ==>
      (xs[i].Some? <==> ys[i].Some?) && (xs[i].Some? ==> rel(xs[i].value, ys[i].value))
    ensures |Somes(xs)| == |Somes(ys)|
    ensures forall k :: 0 <= k < |Somes(xs)| ==> rel(Somes(xs)[k], Somes(ys)[k])
  {
    if xs != [] {
      SomesAligned(xs[1..], ys[1..], rel);
    }
  }
}
