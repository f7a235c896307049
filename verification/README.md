# Cruise trip planner: the text and collection logic

This project models the pure logic inside the views of a family cruise-trip planner, a React single-page app. The model is written in Dafny.

- **Overview parser.** The trip overview is cut into day lines of the form `DAY<n>：title [tag] | detail; detail`. Each line gives a record: a day label, a tag, a title and detail lines. Any other line is dropped.
- **Title highlighter.** The title is cut into word and whitespace runs, and each run is coloured by the first keyword group it mentions.
- **Link splitter.** A detail line is cut around `[label](url)` links.
- **Overview rows.** The rows the overview draws: the red day badges and the connecting lines between rows.
- **Grouping.** The expense list is grouped by category. The packing checklist is grouped by category, then by sub-category, with the rule for hiding a lone `General` sub-heading.
- **Preferences.** The set of ticked checklist items and its toggle, the stored font scale, and the text-size classes each scale selects.
- **Itinerary view.** The activity icon and colour, and the description renderer. The renderer emphasises one known phrase per line, using three tiers of phrases, and puts breaks between lines.

Modelling notes:

- **Strings.** Strings are `seq<char>`.
- **Regular expressions.** Each regular expression is written out as character-level functions that follow JavaScript's rules:
  - `.` does not match a line terminator;
  - `\s` is the ECMAScript whitespace and line-terminator set;
  - the `i` flag folds ASCII letters only;
  - a lazy quantifier takes the shortest match.
- **Non-ASCII literals.** The repository's `App.tsx` stores its non-ASCII string literals double-encoded: its UTF-8 bytes were read back as Windows-1252. The model restores the characters that were meant. Most of them can be read back from the bytes: the full-width colon `：`, the full-width semicolon `；` and most of the Chinese keywords. Some bytes were lost in the double encoding, among them 0x81, 0x8D, 0x8F, 0x90 and 0x9D, which have no Windows-1252 character. As a result the keywords 抵達, 新加坡, 檳城, 普吉島 and 停靠 (`App.tsx:514-515`) are not spelled by the file at all. The model restores them as the words the trip data in `constants.ts` uses. Taken as written, the mangled literals would match neither a `：` nor the Chinese titles of the trip data.
- **Lines 499-500 of `App.tsx` do not compile.** They declare `dayLabel` twice and read an undefined `dayLabelRaw`. The model takes the evident intent: the first line defines `dayLabelRaw`, and the second appends `~` when that text contains an `8`.
- **Day label.** The trip data writes day labels as `DAY<digits>`, but the code builds the badge text differently:
  - an upper-case `DAY` gains a space (`DAY 3`);
  - other spellings such as `day3` are kept as written;
  - `~` is appended after any label containing an `8`, so `DAY18` gets one too.

## Model

| member | source | states |
|---|---|---|
| Text.Trim | App.tsx:502 | `trim` never lengthens the text, and its result neither starts nor ends with whitespace |
| Text.TrimStart | App.tsx:502 | `trim`'s leading half drops exactly the leading whitespace run: the result is a suffix, all that was dropped is whitespace, and the result starts with a non-whitespace character or is empty |
| Text.TrimEnd | App.tsx:502 | the trailing half drops exactly the trailing whitespace run |
| Text.TrimIsSlice | App.tsx:502 | `trim` returns a slice of its input with whitespace only outside it, and neither end of the result is whitespace |
| Text.TrimEmptyIffBlank | App.tsx:489 | `line.trim().length > 0` holds exactly when the line is not all whitespace |
| Text.TrimSurrounded | App.tsx:508 | trimming text padded with whitespace on both sides gives back the trimmed core |
| Text.IndexOfFrom | App.tsx:499 | `indexOf` finds the first occurrence at or after the start, and reports none only when there is no occurrence |
| Text.ReplaceFirst | App.tsx:499 | `replace` with a string pattern and a replacement without `$` patterns (the one call passes `'DAY '`) leaves text without the pattern as it is; otherwise it puts `rep` in place of the first occurrence only, keeping everything before and after it |
| Text.ContainsIffFound | components/ItineraryView.tsx:95-97 | `includes` holds exactly when `indexOf` finds an occurrence |
| Text.LazyUntil | App.tsx:506 | a lazy `.*?` followed by a character stops at the first occurrence of that character, and fails when a line terminator comes first |
| Text.SplitWhere | App.tsx:529 | a split on a one-character separator class: no piece holds a separator, there is one piece more than separators, and putting the separators back restores the input |
| Text.SplitJoin | App.tsx:529 | splitting a join of separator-free pieces gives the pieces back |
| Text.SplitInterleave | App.tsx:529 | pieces put back together with any separator characters of the class between them split back into exactly those pieces |
| Text.AsciiLower | components/ItineraryView.tsx:11 | `toLowerCase` keeps the length, lowercases ASCII capitals and keeps every other character |
| Seqs.Filter | App.tsx:489 | `filter` keeps, in order, exactly the elements that pass: there are as many as pass, and the element passing at index i is the result element numbered by how many passed before it |
| Wrappers.SomesCount | App.tsx:497 | each `null` entry of the mapped list costs one drawn row |
| Overview.MatchLine | App.tsx:495 | a match's day group is the line's prefix up to a colon and has the shape `DAY\s*\d+`, its title group holds no `\|`, and its details group holds no line terminator |
| Overview.DayPrefixEnd | App.tsx:495 | the `DAY\s*\d+` group is found only where it is followed by a colon |
| Overview.DayPrefixComplete | App.tsx:495 | wherever `DAY`, whitespace, digits and a colon start a line, the prefix is found there, and only there |
| Overview.MatchLineFields | App.tsx:495 | given the first `\|` after the colon, or its absence: the day group is the prefix, the title group is the text before the `\|` less its leading whitespace, the details group is the text after it less its leading whitespace, and the match fails exactly when a line terminator is left in those details |
| Overview.MatchLineIff | App.tsx:495-497 | a line matches exactly when it starts with the day prefix and its rest can complete the title and detail groups |
| Overview.MatchLineWithoutTerminators | App.tsx:489-497 | on a line without line terminators only the start matters: the line matches exactly when it starts with `DAY` in any case, optional whitespace, digits and `:` or `：` |
| Overview.TailMatchesIff | App.tsx:495 | the title and detail groups match exactly when the text after the first `\|`, less its leading whitespace, holds no line terminator |
| Overview.TildeDayRejected | constants.ts:16 | a line starting `DAY8~` is dropped, because `~` stands between the digits and the colon |
| Overview.DayLabel | App.tsx:499-500 | a day text containing an `8` gives a label ending in `~`; one with neither an `8` nor an upper-case `DAY` is kept as it is |
| Overview.DayLabelOfMatch | App.tsx:499-500 | the label is the matched prefix with an upper-case `DAY` followed by a space, other spellings kept, plus `~` exactly when the digits contain an `8` |
| Overview.FindTag | App.tsx:506 | the tag match starts at the leftmost `[` from which a `]` is reached lazily; no earlier `[` reaches one |
| Overview.ExtractTag | App.tsx:506-508 | without a tag the title is kept and the tag is null; with one, the tag is the bracket's contents and the title is the text around that one bracket group, trimmed again |
| Overview.TagWithoutTerminators | App.tsx:506 | on a title without line terminators the tag runs from the first `[` to the next `]`; if that `[` has no `]` after it, no later `[` has one either |
| Overview.ExtractTagOf | App.tsx:506-508 | `a[g]b`, with `a` free of `[`, yields tag `g` and title `trim(a + b)`; `[]` yields the empty tag, not null |
| Overview.SplitDetails | App.tsx:529 | every detail is non-empty, trimmed and free of `;` and `；`; there is one detail per piece between separators that is non-empty once trimmed, and the piece at index i gives the detail numbered by how many such pieces came before it |
| Overview.SplitDetailsInterleave | App.tsx:529 | pieces joined by any mix of `;` and `；`, with padding or empty pieces, split into the trimmed pieces that are non-empty, in order |
| Overview.SplitDetailsJoin | App.tsx:529 | trimmed details joined by `;` or `；` split back into exactly those details, in order |
| Overview.ParseLine | App.tsx:495-529 | a line gives a record exactly when it matches the pattern, and the record's details are all proper details; the field values are those of `ParseLinePipeFields` and `NoPipeNoDetails` |
| Overview.ParseLinePipeFields | App.tsx:495-529 | for a line with a `\|` that matches, the record is the label built from the day group, the tag and title taken from the text before the first `\|`, trimmed, and the details split from the text after it, trimmed |
| Overview.NoPipeNoDetails | App.tsx:495-529 | for a matching line without a `\|` the record is the label built from the day group, the tag and title taken from all the text after the colon, trimmed, and no details |
| Overview.ParseComposedLine | App.tsx:495-529 | `DAY<n>:<title>\|<d1>;<d2>...` parses back into its label, its title, a null tag and exactly the given details |
| Overview.OverviewLines | App.tsx:489 | the kept lines are exactly the lines of `split('\n')` with something left after trimming, in order: as many as there are such lines, and the line at index i is the kept line numbered by how many such lines came before it |
| Overview.ParseOverviewSource | App.tsx:489-497 | every record comes from a matching non-blank line, and there are as many records as non-blank lines less the rejected ones |
| Highlight.SplitRuns | App.tsx:518 | `split(/(\s+)/)` keeps every character, and alternates whitespace-free parts with non-empty whitespace runs |
| Highlight.RunShapeAt | App.tsx:518 | read by position: even parts hold no whitespace, odd parts are non-empty whitespace runs, inner even parts are non-empty |
| Highlight.RunSplitUnique | App.tsx:518 | the split is the only decomposition of that shape |
| Highlight.FirstGroup | App.tsx:519-523 | a part takes the tone of the first group, in list order, one of whose words it contains, and no tone when no group's word occurs in it |
| Highlight.HighlightTitle | App.tsx:518-525 | the spans spell out the title, cut in the run shape of `split(/(\s+)/)`; each span takes the tone of the first keyword group it mentions, and whitespace spans are never styled |
| Highlight.WhitespaceUnstyled | App.tsx:511-525 | a whitespace run is never styled, since every keyword has a visible first character |
| Highlight.PriorityOfGroups | App.tsx:519-523 | a part containing a word of a group is styled by that group or an earlier one, never left plain |
| Links.LabelEnd | App.tsx:533 | the lazy label stops at the first `](` and fails when a line terminator comes first |
| Links.UrlEnd | App.tsx:533 | the lazy url stops at the first `)` and fails when a line terminator comes first |
| Links.LinkAtShape | App.tsx:533 | a match at a position is a reading of `[label](url)` there |
| Links.LinkAtLeast | App.tsx:533 | the match at a position is the least reading, with the shortest label and then the shortest url, and there is no match only when no reading exists |
| Links.NextLinkFirst | App.tsx:533 | the split's next match is a match at its position, and no match starts between the search start and it |
| Links.NextLinkNone | App.tsx:533 | when the split finds no further match, no match starts anywhere in the rest of the line |
| Links.SplitLinks | App.tsx:533 | the split has odd length and its parts spell out the line |
| Links.PlainPart | App.tsx:533 | every even-numbered part is a slice of the line in which no match starts |
| Links.MatchPart | App.tsx:533 | every odd-numbered part is the whole text of a match at its position |
| Links.AnchoredLinkIff | App.tsx:535 | a whole part is a link exactly when it can be read as `[label](url)`; it is then exactly `"[" + label + "](" + url + ")"` and its label holds no `](` |
| Links.AnchoredLink | App.tsx:535 | a match of the anchored pattern is the part written as `"[" + label + "](" + url + ")"` |
| Links.ParseLinks | App.tsx:532-551 | one segment per part of the split, each writing back to its part |
| Links.ParseLinksRoundTrip | App.tsx:532-551 | the segments, written back, spell the detail line |
| Links.ParseLinksAlternate | App.tsx:533-549 | segments are links exactly at odd positions, and each carries the label and url of its match |
| Links.MatchIsAnchored | App.tsx:533-535 | a match cut out of the line is a link as a whole, with the match's label and url |
| Links.PlainHasNoShape | App.tsx:533-535 | text between matches holds no reading of a link, so it always stays plain |
| OverviewView.Badge | App.tsx:578-582 | a tag badge is drawn exactly for a non-empty tag |
| OverviewView.DetailSegments | App.tsx:586-594 | each detail line's segments spell that line |
| OverviewView.RenderRow | App.tsx:497-596 | a row is drawn exactly for a line the parser keeps, with that record's label, full title, badge for a non-empty tag and one entry per detail |
| OverviewView.RenderOverview | App.tsx:489-497 | one entry per non-blank line of the text, in order; the entry of a line is drawn exactly when the parser keeps that line |
| OverviewView.RowShowsRecord | App.tsx:497-596 | a row is drawn exactly for a kept line, showing its label, its full title, its non-empty tag and every detail in full |
| OverviewView.RowPosition | App.tsx:557-567 | the badge is red exactly at the first and seventh non-blank line, and every row but that of the last non-blank line has a connector, counting rejected lines too |
| OverviewView.RowsAreRecords | App.tsx:489-596 | the drawn rows are the parsed records, one for one and in order: the k-th row shows the k-th record's label, its full title, its tag exactly when that tag is non-empty, and every detail line spelled out in full |
| Grouping.FirstSeen | App.tsx:833 | each key once, exactly the keys of the input, in the order of their first occurrence |
| Grouping.GroupBy | App.tsx:825-831 | the `reduce` gives no more entries than items, one entry per key, and every entry is non-empty and holds only items of its key |
| Grouping.GroupByReference | App.tsx:825-831 | the `reduce` gives one entry per key, in first-seen order, each holding every item with that key in input order |
| Grouping.GroupExpensesReference | App.tsx:825-833 | every expense is filed under its category, and categories come in the order their first expense appears |
| Grouping.SubKey | App.tsx:923 | the sub-category is `General` exactly when it is missing, empty or itself `General`; a non-empty sub-category is used as written |
| Grouping.GroupPreparation | App.tsx:919-931 | the checklist `reduce` gives each category once, and inside each a non-empty record, filed by sub-category, of items of that category only |
| Grouping.GroupPreparationTwoLevel | App.tsx:919-931 | the checklist record is the grouping by category with each category's items grouped again by sub-category |
| Grouping.HiddenHeadingIff | App.tsx:957-962 | with the rule that a sub-heading is hidden for `General` when it is its category's only sub-category, a category shows no sub-heading exactly when none of its items names a sub-category |
| Grouping.DisplayName | App.tsx:962 | the heading reads 清單 exactly for `General` and for a sub-category named 清單; any text other than the name itself is shown only for `General` |
| Grouping.DisplayNameCollision | App.tsx:962 | two sub-categories share a heading text exactly when they are the same name or are `General` and 清單 |
| Grouping.ItemId | App.tsx:968 | the id is the category, a `-`, the sub-category, a `-` and the item, in that order |
| Grouping.ItemIdInjective | App.tsx:968 | ids of items whose category and sub-category hold no `-` are distinct for distinct items |
| Grouping.ItemIdCollision | App.tsx:968 | with a `-` inside a name two different entries get the same id (`a-b`/`c`/`d` and `a`/`b-c`/`d`), so ticking one ticks the other |
| Preferences.Toggle | App.tsx:911-916 | the toggle flips membership of exactly the given id |
| Preferences.ToggleTwice | App.tsx:911-916 | toggling an id twice restores the set |
| Preferences.ToggleCommutes | App.tsx:911-916 | toggles of two ids give the same set in either order |
| Preferences.ToggleOnlyThatItem | App.tsx:911-968 | ticking an item flips that item alone among items with dash-free category and sub-category names |
| Preferences.LoadFontScale | App.tsx:1037-1049 | the stored value is taken when it is exactly `normal`, `large` or `extra`; anything else, or nothing, gives `large` |
| Preferences.LoadSaved | App.tsx:1042-1044 | a scale stored under its own name loads back as itself |
| Preferences.GetFontClasses | App.tsx:55-62 | every role at every scale gets a class from the text-size ladder |
| Preferences.FontClassesOnLadder | App.tsx:55-62 | each role sits at a fixed offset on the ladder, raised one step by each larger scale |
| Preferences.FontClassesOrdered | App.tsx:55-62 | a larger scale never shrinks a role, and within a scale title > heading > body > small |
| Preferences.ItineraryMatchesShared | components/ItineraryView.tsx:58-61 | the itinerary's title, heading and body sizes are the shared ones; its time label is the shared small size only at the normal scale |
| Preferences.ItineraryClasses | components/ItineraryView.tsx:58-61 | the itinerary's time label is `text-sm` at the extra scale and `text-xs` otherwise |
| Itinerary.ActivityIcon | components/ItineraryView.tsx:10-29 | travel gets a plane exactly when the lowercased title contains a flight word, and a bus otherwise; other kinds never get either, and the map pin goes to sightseeing and unknown kinds |
| Itinerary.IconTellsKind | components/ItineraryView.tsx:19-29 | apart from the shared map pin, the icon determines the kind |
| Itinerary.IconIgnoresCase | components/ItineraryView.tsx:11-12 | the icon does not depend on the case of the title's ASCII letters |
| Itinerary.SingaporeIsFlight | components/ItineraryView.tsx:12 | a travel titled `Bus to Singapore` shows a plane, since `sin` is matched inside words |
| Itinerary.ActivityColor | components/ItineraryView.tsx:31-41 | the default stone colour goes exactly to kinds outside the enumeration |
| Itinerary.ColorInjective | components/ItineraryView.tsx:31-41 | two kinds share a colour only when both are unknown |
| Itinerary.FindPhrase | components/ItineraryView.tsx:95-97 | `find` returns the first phrase, in list order, that the line contains, and nothing when it contains none |
| Itinerary.SplitOnJoin | components/ItineraryView.tsx:100 | `split` with a string separator loses nothing: joining the pieces with the separator gives the line back |
| Itinerary.SplitOnPieces | components/ItineraryView.tsx:100 | no piece of `split` contains the separator |
| Itinerary.Emphasise | components/ItineraryView.tsx:100-106 | the line is shown as the text before the phrase, the phrase and the text after it, and neither surrounding text contains the phrase |
| Itinerary.FirstTwoPieces | components/ItineraryView.tsx:100-105 | the first piece runs to the first occurrence, and the second runs from its end to the next occurrence, or to the end of the line |
| Itinerary.SplitAround | components/ItineraryView.tsx:100-106 | the text before the first occurrence, the phrase and the text up to a second occurrence form a prefix of the line; it is the whole line exactly when the phrase does not occur again, and otherwise the dropped rest begins with that second occurrence |
| Itinerary.RenderLine | components/ItineraryView.tsx:95-126 | an unmatched line is rendered as it is, and an emphasised phrase is a non-empty phrase the line contains |
| Itinerary.TierPriority | components/ItineraryView.tsx:95-126 | red beats brand and brand beats orange, each tier taking its first matching phrase; a line with no phrase is unchanged |
| Itinerary.RenderDescription | components/ItineraryView.tsx:64-133 | one rendered line per line of the description, and a break after every line but the last |
| Itinerary.BreakCount | components/ItineraryView.tsx:128-133 | n lines carry exactly n - 1 breaks, and none follows the last line |

## Left out

- The currency converter: it is floating-point arithmetic and formatting.
- `getFormattedDate`: it depends on JavaScript's `Date` and the time zone.
- Storage reads and writes, and `JSON.parse` of the theme, the ticked set and the trip data. This is browser I/O. The font scale's stored value is a parameter of `Preferences.LoadFontScale`, where a missing value or a read that throws is `None`.
- The hero-image timer, the dark-mode switch, navigation, the lightbox and zooming: they are presentation only.
- JSX markup and Tailwind class strings. The activity colour is modelled by its colour family. The text-size classes are modelled by name.
- The category icons of the expense and checklist views: they are JSX icon choices. The expense view picks its icon by testing the category with `includes` for two substrings (`App.tsx:835-839`). The checklist view uses a `switch` on the category (`App.tsx:934`).
- The Gemini service stub and the trip-generator form: the stub always throws, and the form is UI only.
- Grouping.GroupByReference: the first-seen key order does not model `Object.keys` listing integer-like keys first. Category names that are inherited `Object.prototype` names, such as `constructor`, are also not modelled.
- Text.AsciiLower: it lowercases ASCII letters only, not the full Unicode case mapping of `toLowerCase`.
- Text.ReplaceFirst: `$&`, `$$`, `` $` `` and `$'` in the replacement string are not expanded, because the one call passes the plain `'DAY '`.
- Grouping.SubKey: only strings and a missing value are modelled. Other falsy values of `subCategory` are outside the declared type.
- Itinerary.ActivityIcon: the icon's size class argument is not modelled.
