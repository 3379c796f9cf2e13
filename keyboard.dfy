/**
 * Key dispatch of dragon-drop (`onDraggableKeydown`) and what any sequence
 * of clicks and key presses on the handles preserves.
 */
module Keyboard {
  import opened Wrappers
  import opened Templater
  import opened Rows
  import opened Widget
  import opened GrabRelease
  import opened MoveEngine

  /** Key codes the handler reacts to. */
  const Tab := 9
  const Enter := 13
  const Space := 32

  /** The arrow keys, 37 (left) to 40 (down). */
  predicate IsArrow(which: int)
  {
    37 <= which <= 40
  }

  /**
   * `onDraggableKeydown` for a key press on `handle`: the new state and
   * whether the browser's default action was prevented. Enter and Space
   * click the handle; arrows move it only while it is grabbed; Tab clicks it
   * (releasing it) only while it is grabbed, and lets focus leave.
   */
  function KeyDown(o: Options, s: State, which: int, handle: nat): (State, bool)
    requires Aligned(s) && ValidOptions(o) && handle in Handles(s.items)
  {
    var grabbed := s.dragOn[IndexOf(Handles(s.items), handle)];
    if which == Enter || which == Space then (Click(o, s, handle), true)
    else if IsArrow(which) then
      if grabbed then (ArrowKey(o, s, which, handle), true) else (s, false)
    else if which == Tab then
      (if grabbed then Click(o, s, handle) else s, false)
    else (s, false)
  }

  /**
   * Enter and Space always toggle the handle and prevent the default action:
   * the handle ends grabbed exactly when it was not, with no other handle
   * grabbed.
   */
  lemma ActivationKeysToggle(o: Options, s: State, which: int, k: nat)
    requires Aligned(s) && ValidOptions(o) && k < |s.items|
    requires which == Enter || which == Space
    ensures var (r, prevented) := KeyDown(o, s, which, s.items[k].handle);
      && prevented
      && forall i :: 0 <= i < |s.items| ==> (r.dragOn[i] <==> i == k && !s.dragOn[k])
  {
    ClickFlags(o, s, k);
  }

  /**
   * On a handle that is not grabbed, every key but Enter and Space changes
   * nothing and keeps the browser's default action (arrows scroll, Tab moves
   * focus).
   */
  lemma IdleHandleIgnoresOtherKeys(o: Options, s: State, which: int, k: nat)
    requires Aligned(s) && ValidOptions(o) && k < |s.items| && !s.dragOn[k]
    requires which != Enter && which != Space
    ensures KeyDown(o, s, which, s.items[k].handle) == (s, false)
  {
    IndexOfDistinct(Handles(s.items), k);
  }

  /** On a grabbed handle an arrow key prevents the default action and moves the row. */
  lemma GrabbedHandleArrows(o: Options, s: State, which: int, k: nat)
    requires Aligned(s) && ValidOptions(o) && k < |s.items| && s.dragOn[k] && IsArrow(which)
    ensures var (r, prevented) := KeyDown(o, s, which, s.items[k].handle);
      prevented && r == ArrowKey(o, s, which, s.items[k].handle)
      && (CanMove(|s.items|, k, IsUp(which)) ==> r.items == Exchange(s.items, k, Neighbour(k, IsUp(which))))
      && (!CanMove(|s.items|, k, IsUp(which)) ==> r == s)
  {
    IndexOfDistinct(Handles(s.items), k);
    if CanMove(|s.items|, k, IsUp(which)) {
      ArrowMoveExchanges(o, s, which, k);
    }
  }

  /**
   * Tab on a grabbed handle releases it before focus leaves: afterwards no
   * handle is grabbed, no item carries a managed class, and the default
   * action is kept.
   */
  lemma TabReleases(o: Options, s: State, k: nat)
    requires Aligned(s) && ValidOptions(o) && k < |s.items| && s.dragOn[k]
    ensures var (r, prevented) := KeyDown(o, s, Tab, s.items[k].handle);
      && !prevented
      && forall i :: 0 <= i < |s.items| ==> !r.dragOn[i] && r.classes[i] * Configured(o) == {}
  {
    IndexOfDistinct(Handles(s.items), k);
    ClickReleases(o, s, k);
  }

  /** Every key press keeps the widget's invariant. */
  lemma KeyDownPreservesInvariant(o: Options, s: State, which: int, handle: nat)
    requires Invariant(s) && ValidOptions(o) && handle in Handles(s.items)
    ensures Invariant(KeyDown(o, s, which, handle).0)
    ensures multiset(KeyDown(o, s, which, handle).0.items) == multiset(s.items)
  {
    if IsArrow(which) {
      ArrowPreservesInvariant(o, s, which, handle);
    } else {
      ClickPreservesInvariant(o, s, handle);
    }
  }

  /** A user input whose target is a handle element itself: a click, or a key press with its key code. */
  datatype Event = ClickOn(target: nat) | KeyOn(which: int, target: nat)

  /**
   * The state after a sequence of events. Every event is taken to target a
   * handle element itself; an event whose target is not a listed handle is
   * taken to change nothing.
   */
  function Run(o: Options, s: State, events: seq<Event>): State
    requires Invariant(s) && ValidOptions(o)
    decreases |events|
  {
    if events == [] then s
    else
      var e := events[0];
      var next :=
        if e.target !in Handles(s.items) then s
        else match e
          case ClickOn(h) => Click(o, s, h)
          case KeyOn(which, h) => KeyDown(o, s, which, h).0;
      StepPreservesInvariant(o, s, e);
      Run(o, next, events[1..])
  }

  /** One event keeps the invariant and the items' multiset. */
  lemma StepPreservesInvariant(o: Options, s: State, e: Event)
    requires Invariant(s) && ValidOptions(o)
    ensures e.target in Handles(s.items) ==>
      match e
      case ClickOn(h) => Invariant(Click(o, s, h)) && multiset(Click(o, s, h).items) == multiset(s.items)
      case KeyOn(which, h) => Invariant(KeyDown(o, s, which, h).0) && multiset(KeyDown(o, s, which, h).0.items) == multiset(s.items)
  {
    if e.target in Handles(s.items) {
      match e
      case ClickOn(h) => ClickPreservesInvariant(o, s, h);
      case KeyOn(which, h) => KeyDownPreservesInvariant(o, s, which, h);
    }
  }

  /**
   * After any sequence of clicks and key presses, at most one handle is
   * grabbed and the list holds the same items as before.
   */
  lemma {:induction false} RunPreservesInvariant(o: Options, s: State, events: seq<Event>)
    requires Invariant(s) && ValidOptions(o)
    ensures Invariant(Run(o, s, events))
    ensures multiset(Run(o, s, events).items) == multiset(s.items)
    decreases |events|
  {
    if events != [] {
      var e := events[0];
      StepPreservesInvariant(o, s, e);
      var next :=
        if e.target !in Handles(s.items) then s
        else match e
          case ClickOn(h) => Click(o, s, h)
          case KeyOn(which, h) => KeyDown(o, s, which, h).0;
      RunPreservesInvariant(o, next, events[1..]);
    }
  }

  /** The key code of the down arrow. */
  const Down := 40

  /** The default announcement templates, with options otherwise arbitrary. */
  predicate DefaultAnnouncements(o: Options)
  {
    ValidOptions(o) && o.announcement == DefaultOptions().announcement
  }

  /**
   * First step of the three-item walkthrough: Enter on the handle of the
   * middle row of three grabs it and announces "<its text> grabbed.".
   */
  lemma WalkthroughGrab(o: Options, s: State)
    requires DefaultAnnouncements(o) && Invariant(s) && |s.items| == 3 && !s.dragOn[1]
    ensures var (s1, prevented) := KeyDown(o, s, Enter, s.items[1].handle);
      && prevented && Invariant(s1) && s1.items == s.items
      && s1.dragOn[1] && s1.ariaGrabbed[1] && s1.pending == Some(s.items[1].handleText + " grabbed.")
  {
    ActivationKeysToggle(o, s, Enter, 1);
    ClickAria(o, s, 1);
    ClickAnnouncement(o, s, 1);
    ClickPreservesInvariant(o, s, s.items[1].handle);
  }

  /**
   * Second step: Down on the grabbed middle row moves it behind the last one,
   * keeps it grabbed and focused, and announces it as item 3 of 3.
   */
  lemma WalkthroughMove(o: Options, s: State)
    requires DefaultAnnouncements(o) && Invariant(s) && |s.items| == 3 && s.dragOn[1]
    ensures var (s2, prevented) := KeyDown(o, s, Down, s.items[1].handle);
      && prevented && Invariant(s2) && s2.items == [s.items[0], s.items[2], s.items[1]]
      && s2.dragOn[2] && s2.focused == Some(2)
      && s2.pending == Some("The list has been reordered. " + s.items[1].text + " is now item " + NatToString(3) + " of " + NatToString(3))
  {
    GrabbedHandleArrows(o, s, Down, 1);
    ArrowMoveKeepsOthers(o, s, Down, 1);
    ArrowMoveDefaultText(o, s, Down, 1);
    ArrowPreservesInvariant(o, s, Down, s.items[1].handle);
    ExchangeLastTwo(s.items);
  }

  /** In a three-element sequence, exchanging the last two elements swaps them. */
  lemma ExchangeLastTwo<T>(s: seq<T>)
    requires |s| == 3
    ensures Exchange(s, 1, 2) == [s[0], s[2], s[1]]
  {
  }

  /** Third step: Down on the grabbed last row changes nothing. */
  lemma WalkthroughAtEnd(o: Options, s: State)
    requires DefaultAnnouncements(o) && Invariant(s) && |s.items| == 3 && s.dragOn[2]
    ensures KeyDown(o, s, Down, s.items[2].handle) == (s, true)
  {
    GrabbedHandleArrows(o, s, Down, 2);
  }
}
