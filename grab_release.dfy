/**
 * The grab/release state machine of dragon-drop (`setup`, `cleanUp` and the
 * click handler), as functions from the widget state before an event to the
 * state after it.
 */
module GrabRelease {
  import opened Wrappers
  import opened Templater
  import opened Rows
  import opened Widget

  /**
   * The class lists after `removeClass(activeClass)` and then
   * `removeClass(inactiveClass)` on every item, each only when configured:
   * together they take away exactly the configured classes.
   */
  function CleanedClasses(o: Options, cs: seq<set<string>>): (r: seq<set<string>>)
    ensures |r| == |cs|
    ensures forall i :: 0 <= i < |cs| ==> r[i] == cs[i] - Configured(o)
  {
    var a := if o.activeClass != "" then WithoutClass(cs, o.activeClass) else cs;
    if o.inactiveClass != "" then WithoutClass(a, o.inactiveClass) else a
  }

  /**
   * `setup`: every handle's `drag-on` data and `aria-grabbed` attribute are
   * cleared, and the configured classes are removed from every item.
   */
  function SetUp(o: Options, s: State): State
    requires Aligned(s)
  {
    s.(dragOn := AllFalse(|s.items|),
       ariaGrabbed := AllFalse(|s.items|),
       classes := CleanedClasses(o, s.classes))
  }

  /** `cleanUp`: every flag and every configured class is cleared. */
  function CleanUp(o: Options, s: State): State
    requires Aligned(s)
  {
    s.(dragOn := AllFalse(|s.items|), classes := CleanedClasses(o, s.classes))
  }

  /**
   * The classes set on grabbing the item at `k`: after the clean-up, the
   * active class is toggled on that item; then the inactive class is removed
   * from every item and toggled on every other one.
   */
  function GrabClasses(o: Options, cs: seq<set<string>>, k: nat): seq<set<string>>
    requires k < |cs|
  {
    var a := if o.activeClass != "" then cs[k := Toggle(cs[k], o.activeClass)] else cs;
    if o.inactiveClass != "" then ToggleExcept(WithoutClass(a, o.inactiveClass), k, o.inactiveClass) else a
  }

  /** The text a grab or drop announcement names: the text selector's match, or the handle's own text. */
  function GrabSubject(o: Options, item: Item): string
  {
    if o.announcement.textSelector != "" then item.labelText else item.handleText
  }

  /**
   * `onDraggableClick` on `handle`: the handle's flag is flipped after a full
   * clean-up, the classes follow, only the clicked handle's `aria-grabbed`
   * is written, and a grab or drop announcement with the 0-based index is
   * scheduled when both templates are set and the text is not empty.
   */
  function Click(o: Options, s: State, handle: nat): State
    requires Aligned(s) && ValidOptions(o) && handle in Handles(s.items)
  {
    var k := IndexOf(Handles(s.items), handle);
    var isDragging := !s.dragOn[k];
    var c := CleanUp(o, s);
    var g := if isDragging then c.(dragOn := c.dragOn[k := true], classes := GrabClasses(o, c.classes, k)) else c;
    var ann := o.announcement;
    var pending :=
      if ann.grab != "" && ann.drop != "" then
        Announce(s.pending, Replace(if isDragging then ann.grab else ann.drop,
                                    [GrabSubject(o, s.items[k]), NatToString(k), NatToString(|s.items|)]))
      else s.pending;
    g.(ariaGrabbed := s.ariaGrabbed[k := isDragging], pending := pending)
  }

  /** After `setup` nothing is grabbed and no item carries a managed class. */
  lemma SetUpState(o: Options, s: State)
    requires Aligned(s)
    ensures Invariant(SetUp(o, s))
    ensures var r := SetUp(o, s);
      && r.items == s.items
      && forall i :: 0 <= i < |s.items| ==>
           !r.dragOn[i] && !r.ariaGrabbed[i] && r.classes[i] * Configured(o) == {}
  {
  }

  /**
   * After a click on the handle at `k`, that handle is grabbed exactly when it
   * was not before, and no other handle is, so at most one handle is grabbed
   * whatever the state before.
   */
  lemma ClickFlags(o: Options, s: State, k: nat)
    requires Aligned(s) && ValidOptions(o) && k < |s.items|
    ensures var r := Click(o, s, s.items[k].handle);
      && Invariant(r)
      && (forall i :: 0 <= i < |s.items| ==> (r.dragOn[i] <==> i == k && !s.dragOn[k]))
  {
    IndexOfDistinct(Handles(s.items), k);
  }

  /**
   * The clicked handle's `aria-grabbed` becomes its new flag; every other
   * handle's `aria-grabbed` is left as it was. Nothing else in the row order,
   * focus or change record moves.
   */
  lemma ClickAria(o: Options, s: State, k: nat)
    requires Aligned(s) && ValidOptions(o) && k < |s.items|
    ensures var r := Click(o, s, s.items[k].handle);
      && r.ariaGrabbed == s.ariaGrabbed[k := r.dragOn[k]]
      && r.items == s.items && r.focused == s.focused && r.lastChange == s.lastChange
  {
    IndexOfDistinct(Handles(s.items), k);
  }

  /**
   * A click on a grabbed handle releases it: no flag is set and no item
   * carries the active or inactive class; other classes are kept.
   */
  lemma ClickReleases(o: Options, s: State, k: nat)
    requires Aligned(s) && ValidOptions(o) && k < |s.items| && s.dragOn[k]
    ensures var r := Click(o, s, s.items[k].handle);
      && !r.ariaGrabbed[k]
      && forall i :: 0 <= i < |s.items| ==> !r.dragOn[i] && r.classes[i] == s.classes[i] - Configured(o)
  {
    IndexOfDistinct(Handles(s.items), k);
  }

  /**
   * A click on a handle that is not grabbed grabs it: when the two class
   * names differ, only the owning item carries the active class (if one is
   * configured) and every other item carries the inactive class (if one is
   * configured); classes the widget does not manage are kept, so with no
   * class configured the classes are untouched.
   */
  lemma ClickGrabClasses(o: Options, s: State, k: nat)
    requires Aligned(s) && ValidOptions(o) && k < |s.items| && !s.dragOn[k]
    requires o.activeClass != o.inactiveClass || o.activeClass == ""
    ensures var r := Click(o, s, s.items[k].handle);
      && (o.activeClass != "" ==> forall i :: 0 <= i < |s.items| ==> (o.activeClass in r.classes[i] <==> i == k))
      && (o.inactiveClass != "" ==> forall i :: 0 <= i < |s.items| ==> (o.inactiveClass in r.classes[i] <==> i != k))
      && forall i :: 0 <= i < |s.items| ==> r.classes[i] - Configured(o) == s.classes[i] - Configured(o)
  {
    IndexOfDistinct(Handles(s.items), k);
  }

  /**
   * Grabbing with the same name as active and inactive class leaves the
   * owning item without it: the inactive pass removes it again.
   */
  lemma ClickSameClassNames(o: Options, s: State, k: nat)
    requires Aligned(s) && ValidOptions(o) && k < |s.items| && !s.dragOn[k]
    requires o.activeClass == o.inactiveClass != ""
    ensures var r := Click(o, s, s.items[k].handle);
      forall i :: 0 <= i < |s.items| ==> (o.activeClass in r.classes[i] <==> i != k)
  {
    IndexOfDistinct(Handles(s.items), k);
  }

  /**
   * Two clicks on a handle that is not grabbed bring back the flags, classes
   * and `aria-grabbed` of the state that `setup` produces.
   */
  lemma ClickTwiceRestores(o: Options, s: State, k: nat)
    requires Aligned(s) && ValidOptions(o) && k < |s.items|
    ensures var s0 := SetUp(o, s);
      var r := Click(o, Click(o, s0, s.items[k].handle), s.items[k].handle);
      r.dragOn == s0.dragOn && r.classes == s0.classes && r.ariaGrabbed == s0.ariaGrabbed
  {
    var s0 := SetUp(o, s);
    var h := s.items[k].handle;
    IndexOfDistinct(Handles(s.items), k);
    ClickFlags(o, s0, k);
    var s1 := Click(o, s0, h);
    ClickReleases(o, s1, k);
    var r := Click(o, s1, h);
    assert r.classes == s0.classes by {
      forall i | 0 <= i < |s.items| ensures r.classes[i] == s0.classes[i] {
        assert s1.classes[i] - Configured(o) == s0.classes[i] - Configured(o);
      }
    }
  }

  /**
   * `aria-grabbed` is written only on the clicked handle: grabbing `b` while
   * `a` is grabbed releases `a`'s flag but leaves its `aria-grabbed` true.
   */
  lemma StaleAriaAfterRegrab(o: Options, s: State, a: nat, b: nat)
    requires Aligned(s) && ValidOptions(o) && a < |s.items| && b < |s.items| && a != b
    requires !s.dragOn[a]
    ensures var r := Click(o, Click(o, s, s.items[a].handle), s.items[b].handle);
      r.dragOn[b] && !r.dragOn[a] && r.ariaGrabbed[a] && r.ariaGrabbed[b]
  {
    ClickFlags(o, s, a);
    ClickAria(o, s, a);
    var s1 := Click(o, s, s.items[a].handle);
    ClickFlags(o, s1, b);
    ClickAria(o, s1, b);
  }

  /**
   * A click schedules no announcement when the grab or drop template is
   * empty. Otherwise the drop template (on release) or the grab template (on
   * grab) is filled with the subject text, the 0-based index of the handle
   * and the item count, and an empty result leaves the pending text as it
   * was. With the default templates it announces "<text> grabbed." on grab
   * and "<text> dropped." on release.
   */
  lemma ClickAnnouncement(o: Options, s: State, k: nat)
    requires Aligned(s) && ValidOptions(o) && k < |s.items|
    ensures var r := Click(o, s, s.items[k].handle);
      var ann := o.announcement;
      && (ann.grab == "" || ann.drop == "" ==> r.pending == s.pending)
      && (ann.grab != "" && ann.drop != "" ==>
            r.pending == Announce(s.pending, Replace(if s.dragOn[k] then ann.drop else ann.grab,
                                    [GrabSubject(o, s.items[k]), NatToString(k), NatToString(|s.items|)])))
      && (o.announcement == DefaultOptions().announcement ==>
            r.pending == Some(s.items[k].handleText + if s.dragOn[k] then " dropped." else " grabbed."))
  {
    IndexOfDistinct(Handles(s.items), k);
    DefaultGrabText(s.items[k].handleText, NatToString(k), NatToString(|s.items|));
    DefaultDropText(s.items[k].handleText, NatToString(k), NatToString(|s.items|));
  }

  /** A click keeps the widget's invariant and changes neither order nor focus. */
  lemma ClickPreservesInvariant(o: Options, s: State, handle: nat)
    requires Invariant(s) && ValidOptions(o) && handle in Handles(s.items)
    ensures Invariant(Click(o, s, handle))
    ensures Click(o, s, handle).items == s.items
  {
    var k := IndexOf(Handles(s.items), handle);
    assert s.items[k].handle == handle;
    ClickFlags(o, s, k);
  }
}
