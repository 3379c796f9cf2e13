/**
 * The data model of one dragon-drop container: its options, the rows of the
 * list (item element plus drag handle), and the observable state the widget
 * keeps on them.
 */
module Widget {
  import opened Wrappers
  import opened Templater
  import opened Rows

  /**
   * One row of the list. `id` names the item element and `handle` its drag
   * handle (the same element when no drag selector is configured); `text` is
   * the item's text, `handleText` the handle's text and `labelText` the text
   * of whatever the announcement text selector matches inside the item.
   */
  datatype Item = Item(id: nat, handle: nat, text: string, handleText: string, labelText: string)

  /**
   * The announcement options. The empty string stands for every falsy value
   * (absent, null, ""), which silences that template or selector.
   */
  datatype Announcement = Announcement(textSelector: string, grab: string, drop: string, reorder: string)

  /** The options of one container; "" again stands for "not configured". */
  datatype Options = Options(
    activeClass: string,
    inactiveClass: string,
    hasOnChange: bool,
    announcement: Announcement)

  /** The arguments of the last `onChange(movedItem, items)` call. */
  datatype Change = Change(moved: Item, items: seq<Item>)

  /**
   * Everything the widget changes, row by row: the items in document order,
   * each handle's `drag-on` data, each item's class list, each handle's
   * `aria-grabbed` attribute; the handle the widget last focused, the text
   * last scheduled for the live region, and the last `onChange` call.
   */
  datatype State = State(
    items: seq<Item>,
    dragOn: seq<bool>,
    classes: seq<set<string>>,
    ariaGrabbed: seq<bool>,
    focused: Option<nat>,
    pending: Option<string>,
    lastChange: Option<Change>)

  /** `$items`, by element id. */
  function ItemIds(items: seq<Item>): (r: seq<nat>)
    ensures |r| == |items| && forall i :: 0 <= i < |items| ==> r[i] == items[i].id
  {
    seq(|items|, i requires 0 <= i < |items| => items[i].id)
  }

  /** `$dragItems`: the handle of each item, index-aligned with the items. */
  function Handles(items: seq<Item>): (r: seq<nat>)
    ensures |r| == |items| && forall i :: 0 <= i < |items| ==> r[i] == items[i].handle
  {
    seq(|items|, i requires 0 <= i < |items| => items[i].handle)
  }

  /** Every template has no more placeholders than the three arguments it is given. */
  predicate ValidOptions(o: Options)
  {
    Count(o.announcement.grab) <= 3 && Count(o.announcement.drop) <= 3 && Count(o.announcement.reorder) <= 3
  }

  /** The per-row state is index-aligned with the items, and elements are distinct. */
  predicate Aligned(s: State)
  {
    && |s.dragOn| == |s.items|
    && |s.classes| == |s.items|
    && |s.ariaGrabbed| == |s.items|
    && Distinct(ItemIds(s.items))
    && Distinct(Handles(s.items))
    && (s.focused.Some? ==> s.focused.value < |s.items|)
  }

  /** At most one handle is grabbed. */
  predicate AtMostOne(flags: seq<bool>)
  {
    forall i, j :: 0 <= i < |flags| && 0 <= j < |flags| && flags[i] && flags[j] ==> i == j
  }

  /** The invariant the widget keeps between events. */
  predicate Invariant(s: State)
  {
    Aligned(s) && AtMostOne(s.dragOn)
  }

  /** `n` cleared flags. */
  function AllFalse(n: nat): (r: seq<bool>)
    ensures |r| == n && forall i :: 0 <= i < n ==> !r[i]
  {
    seq(n, _ => false)
  }

  /** The class names the widget manages: the configured active and inactive classes. */
  function Configured(o: Options): set<string>
  {
    (if o.activeClass != "" then {o.activeClass} else {}) + (if o.inactiveClass != "" then {o.inactiveClass} else {})
  }

  /** jQuery `toggleClass` on one element. */
  function Toggle(c: set<string>, name: string): (r: set<string>)
    ensures name in r <==> name !in c
    ensures r - {name} == c - {name}
  {
    if name in c then c - {name} else c + {name}
  }

  /** jQuery `removeClass` on every item. */
  function WithoutClass(cs: seq<set<string>>, name: string): (r: seq<set<string>>)
    ensures |r| == |cs| && forall i :: 0 <= i < |cs| ==> r[i] == cs[i] - {name}
  {
    seq(|cs|, i requires 0 <= i < |cs| => cs[i] - {name})
  }

  /** jQuery `toggleClass` on every item except the one at `k`. */
  function ToggleExcept(cs: seq<set<string>>, k: nat, name: string): (r: seq<set<string>>)
    ensures |r| == |cs|
    ensures forall i :: 0 <= i < |cs| ==> r[i] == if i == k then cs[i] else Toggle(cs[i], name)
  {
    seq(|cs|, i requires 0 <= i < |cs| => if i == k then cs[i] else Toggle(cs[i], name))
  }

  /** Scheduling `text` for the live region; empty text schedules nothing. */
  function Announce(pending: Option<string>, text: string): (r: Option<string>)
    ensures text != "" ==> r == Some(text)
    ensures text == "" ==> r == pending
  {
    if text != "" then Some(text) else pending
  }

  /** The fixed parts of the default grab template "%s grabbed.". */
  const GrabParts: seq<string> := ["", " grabbed."]
  /** The fixed parts of the default drop template "%s dropped.". */
  const DropParts: seq<string> := ["", " dropped."]
  /** The fixed parts of the default reorder template. */
  const ReorderParts: seq<string> := ["The list has been reordered. ", " is now item ", " of ", ""]

  /**
   * The default options: active class "drag-on", no inactive class, no
   * change callback, announcement text taken from the element itself.
   */
  function DefaultOptions(): Options
  {
    Options("drag-on", "", false,
      Announcement("", Template(GrabParts), Template(DropParts), Template(ReorderParts)))
  }

  /** The default templates read exactly one, one and three arguments. */
  lemma DefaultOptionsValid()
    ensures ValidOptions(DefaultOptions())
    ensures Count(DefaultOptions().announcement.grab) == 1
    ensures Count(DefaultOptions().announcement.reorder) == 3
  {
    DefaultGrabText("", "", "");
    DefaultDropText("", "", "");
    DefaultReorderText("", "", "");
  }

  /** The default grab template, spelled out. */
  lemma DefaultGrabSpelled()
    ensures Template(GrabParts) == "%s grabbed."
  {
  }

  /** The default drop template, spelled out. */
  lemma DefaultDropSpelled()
    ensures Template(DropParts) == "%s dropped."
  {
  }

  /** The default reorder template, spelled out. */
  lemma DefaultReorderSpelled()
    ensures Template(ReorderParts) == "The list has been reordered. %s is now item %s of %s"
  {
  }

  /** The fixed parts of the default grab and drop templates hold no placeholder. */
  lemma GrabDropSuffixesPlain()
    ensures !HasPlaceholder(" grabbed.") && !HasPlaceholder(" dropped.")
  {
  }

  /** The fixed parts of the default reorder template hold no placeholder. */
  lemma ReorderPartsPlain()
    ensures !HasPlaceholder("The list has been reordered. ")
    ensures !HasPlaceholder(" is now item ") && !HasPlaceholder(" of ")
  {
  }

  /** Given the three arguments of a click, the default grab template names the subject. */
  lemma DefaultGrabText(subject: string, index: string, total: string)
    ensures Count(Template(GrabParts)) == 1
    ensures Replace(Template(GrabParts), [subject, index, total]) == subject + " grabbed."
  {
    GrabDropSuffixesPlain();
    OneSlot("", " grabbed.", subject);
    ReplaceExtraArguments(Template(GrabParts), [subject], [index, total]);
    assert [subject] + [index, total] == [subject, index, total];
    assert "" + subject == subject;
  }

  /** Given the three arguments of a click, the default drop template names the subject. */
  lemma DefaultDropText(subject: string, index: string, total: string)
    ensures Count(Template(DropParts)) == 1
    ensures Replace(Template(DropParts), [subject, index, total]) == subject + " dropped."
  {
    GrabDropSuffixesPlain();
    OneSlot("", " dropped.", subject);
    ReplaceExtraArguments(Template(DropParts), [subject], [index, total]);
    assert [subject] + [index, total] == [subject, index, total];
    assert "" + subject == subject;
  }

  /** The default reorder template reads subject, position and total in that order. */
  lemma DefaultReorderText(subject: string, position: string, total: string)
    ensures Count(Template(ReorderParts)) == 3
    ensures Replace(Template(ReorderParts), [subject, position, total])
         == "The list has been reordered. " + subject + " is now item " + position + " of " + total
  {
    ReorderPartsPlain();
    ThreeSlots("The list has been reordered. ", " is now item ", " of ", "", subject, position, total);
  }
}
