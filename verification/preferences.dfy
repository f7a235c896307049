/** The reader's preferences: the set of ticked checklist items, the
    stored font scale and the text-size classes each scale selects. */
module Preferences {
  import opened Wrappers
  import Grouping

  // ------------------------------------------------------- checked items

  /** `toggleItem`: a copy of the set with `id` flipped. */
  function Toggle(checked: set<string>, id: string): (r: set<string>)
    ensures id in r <==> id !in checked
    ensures forall x :: x != id ==> (x in r <==> x in checked)
  {
    if id in checked then checked - {id} else checked + {id}
  }

  /** Toggling the same id twice restores the set. */
  lemma ToggleTwice(checked: set<string>, id: string)
    ensures Toggle(Toggle(checked, id), id) == checked
  {
    var once := Toggle(checked, id);
    var twice := Toggle(once, id);
    forall x ensures x in twice <==> x in checked {
      if x == id {
        assert x in twice <==> x !in once;
      }
    }
  }

  /** Toggles of different ids do not interfere: their order is immaterial. */
  lemma ToggleCommutes(checked: set<string>, a: string, b: string)
    ensures Toggle(Toggle(checked, a), b) == Toggle(Toggle(checked, b), a)
  {
    var ab := Toggle(Toggle(checked, a), b);
    var ba := Toggle(Toggle(checked, b), a);
    forall x ensures x in ab <==> x in ba {
      if x == a || x == b {
        assert x in ab <==> (x in checked <==> (x == a) == (x == b));
      }
    }
  }

  /** Whether the checklist shows an item as ticked. */
  predicate IsChecked(checked: set<string>, category: string, sub: string, item: string) {
    Grouping.ItemId(category, sub, item) in checked
  }

  /** Ticking one item leaves every other item of a dash-free category and
      sub-category as it was, and flips the ticked one. */
  lemma ToggleOnlyThatItem(checked: set<string>, c: string, s: string, i: string,
                           c': string, s': string, i': string)
    requires '-' !in c && '-' !in s && '-' !in c' && '-' !in s'
    ensures var after := Toggle(checked, Grouping.ItemId(c, s, i));
      IsChecked(after, c', s', i') <==>
        (if (c', s', i') == (c, s, i) then !IsChecked(checked, c', s', i')
         else IsChecked(checked, c', s', i'))
  {
    if Grouping.ItemId(c, s, i) == Grouping.ItemId(c', s', i') {
      Grouping.ItemIdInjective(c, s, i, c', s', i');
    }
  }

  // ---------------------------------------------------------- font scale

  datatype FontScale = Normal | Large | Extra

  /** The stored spelling of a scale. */
  function ScaleName(scale: FontScale): (name: string)
    ensures name in {"normal", "large", "extra"}
  {
    match scale
    case Normal => "normal"
    case Large => "large"
    case Extra => "extra"
  }

  /** The initial scale: the stored value when it is exactly one of the
      three names, and `Large` when nothing is stored or the value is
      anything else. */
  function LoadFontScale(saved: Option<string>): (scale: FontScale)
    ensures saved.Some? && saved.value in {"normal", "large", "extra"} ==>
      ScaleName(scale) == saved.value
    ensures !(saved.Some? && saved.value in {"normal", "large", "extra"}) ==> scale == Large
  {
    match saved
    case Some("normal") => Normal
    case Some("extra") => Extra
    case _ => Large
  }

  /** A scale written out as its name loads back as itself. */
  lemma LoadSaved(scale: FontScale)
    ensures LoadFontScale(Some(ScaleName(scale))) == scale
  {
  }

  // ------------------------------------------------------- size classes

  /** The text-size classes in increasing size. */
  const Ladder: seq<string> :=
    ["text-xs", "text-sm", "text-base", "text-lg", "text-xl", "text-2xl", "text-3xl"]

  datatype FontClasses = FontClasses(title: string, heading: string, body: string, small: string)

  datatype Role = Title | Heading | Body | Small

  function ClassOf(f: FontClasses, role: Role): string {
    match role
    case Title => f.title
    case Heading => f.heading
    case Body => f.body
    case Small => f.small
  }

  /** `getFontClasses`: the size class of each text role at a scale. */
  function GetFontClasses(scale: FontScale): (f: FontClasses)
    ensures forall role :: ClassOf(f, role) in Ladder
  {
    FontClasses(
      if scale == Extra then "text-3xl" else if scale == Large then "text-2xl" else "text-xl",
      if scale == Extra then "text-2xl" else if scale == Large then "text-xl" else "text-lg",
      if scale == Extra then "text-lg" else if scale == Large then "text-base" else "text-sm",
      if scale == Extra then "text-base" else if scale == Large then "text-sm" else "text-xs")
  }

  /** How many ladder steps a scale raises every role. */
  function Step(scale: FontScale): nat {
    match scale
    case Normal => 0
    case Large => 1
    case Extra => 2
  }

  /** Where each role sits on the ladder at the normal scale. */
  function Offset(role: Role): nat {
    match role
    case Small => 0
    case Body => 1
    case Heading => 3
    case Title => 4
  }

  /** The mapping read as a ladder: every role sits at its own offset,
      raised by one step per scale. */
  lemma FontClassesOnLadder(scale: FontScale, role: Role)
    ensures Offset(role) + Step(scale) < |Ladder|
    ensures ClassOf(GetFontClasses(scale), role) == Ladder[Offset(role) + Step(scale)]
  {
  }

  /** A larger scale never makes any role smaller, and within a scale the
      title is larger than the heading, the heading than the body and the
      body than small print. */
  lemma FontClassesOrdered(a: FontScale, b: FontScale, r1: Role, r2: Role)
    requires Step(a) <= Step(b) && Offset(r1) <= Offset(r2)
    ensures LadderIndex(ClassOf(GetFontClasses(a), r1)) <= LadderIndex(ClassOf(GetFontClasses(b), r2))
    ensures r1 != r2 && a == b ==>
      LadderIndex(ClassOf(GetFontClasses(a), r1)) < LadderIndex(ClassOf(GetFontClasses(b), r2))
  {
    FontClassesOnLadder(a, r1);
    FontClassesOnLadder(b, r2);
    LadderIndexOf(Offset(r1) + Step(a));
    LadderIndexOf(Offset(r2) + Step(b));
  }

  /** The position of a class on the ladder. */
  function LadderIndex(cls: string): (i: nat)
    requires cls in Ladder
    ensures i < |Ladder| && Ladder[i] == cls
  {
    if cls == Ladder[0] then 0
    else if cls == Ladder[1] then 1
    else if cls == Ladder[2] then 2
    else if cls == Ladder[3] then 3
    else if cls == Ladder[4] then 4
    else if cls == Ladder[5] then 5
    else 6
  }

  lemma LadderIndexOf(i: nat)
    requires i < |Ladder|
    ensures LadderIndex(Ladder[i]) == i
  {
  }

  /** The itinerary's own size classes: title, heading and body as above,
      and the time label one step above `text-xs` only at the extra scale. */
  function ItineraryClasses(scale: FontScale): (f: FontClasses)
    ensures f.small == (if scale == Extra then "text-sm" else "text-xs")
  {
    FontClasses(
      if scale == Extra then "text-3xl" else if scale == Large then "text-2xl" else "text-xl",
      if scale == Extra then "text-2xl" else if scale == Large then "text-xl" else "text-lg",
      if scale == Extra then "text-lg" else if scale == Large then "text-base" else "text-sm",
      if scale == Extra then "text-sm" else "text-xs")
  }

  /** The itinerary agrees with the shared mapping on every role but the
      time label, which is one ladder step smaller at the large and extra
      scales. */
  lemma ItineraryMatchesShared(scale: FontScale)
    ensures var it, shared := ItineraryClasses(scale), GetFontClasses(scale);
      it.title == shared.title && it.heading == shared.heading && it.body == shared.body
      && (scale == Normal <==> it.small == shared.small)
  {
  }
}
