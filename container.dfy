/**
 * The per-container closure of `$.fn.dragonDrop`: the state it keeps and
 * the handlers it binds, written as a class whose methods change that state
 * step by step. Each method is proved to produce the state the specification
 * functions of GrabRelease, MoveEngine and Keyboard describe.
 */
module Plugin {
  import opened Wrappers
  import opened Templater
  import opened Rows
  import opened Widget
  import opened GrabRelease
  import opened MoveEngine
  import opened Keyboard

  class Container {
    const options: Options
    /** `$items`, in document order. */
    var items: seq<Item>
    /** `$dragItems`, the handles of `items`, refreshed by `UpdateItems`. */
    var dragItems: seq<nat>
    /** Each handle's `drag-on` data. */
    var dragOn: seq<bool>
    /** Each item's class list. */
    var classes: seq<set<string>>
    /** Each handle's `aria-grabbed` attribute. */
    var ariaGrabbed: seq<bool>
    /** The handle this widget last gave focus to. */
    var focused: Option<nat>
    /** The text last scheduled for the live region. */
    var pending: Option<string>
    /** The arguments of the last `onChange` call. */
    var lastChange: Option<Change>

    /** The widget state as the specification functions see it. */
    function View(): State
      reads this
    {
      State(items, dragOn, classes, ariaGrabbed, focused, pending, lastChange)
    }

    ghost predicate Valid()
      reads this
    {
      Invariant(View()) && ValidOptions(options) && dragItems == Handles(items)
    }

    /**
     * Initialisation on a container whose rows are `items`, with whatever
     * element data, classes and attributes they carry (possibly from an
     * earlier initialisation); ends with `setup`.
     */
    constructor (options: Options, items: seq<Item>, dragOn: seq<bool>, classes: seq<set<string>>, ariaGrabbed: seq<bool>)
      requires ValidOptions(options)
      requires Aligned(State(items, dragOn, classes, ariaGrabbed, None, None, None))
      ensures Valid()
      ensures View() == SetUp(options, State(items, dragOn, classes, ariaGrabbed, None, None, None))
    {
      this.options := options;
      this.items := items;
      this.dragItems := [];
      this.dragOn := dragOn;
      this.classes := classes;
      this.ariaGrabbed := ariaGrabbed;
      this.focused := None;
      this.pending := None;
      this.lastChange := None;
      new;
      Setup();
    }

    /** `updateItems`: re-derive the handles from the items. */
    method UpdateItems()
      modifies this`dragItems
      ensures dragItems == Handles(items)
    {
      dragItems := Handles(items);
    }

    /**
     * `setup`: re-index, then clear every handle's flag and `aria-grabbed`,
     * then remove the configured classes from every item.
     */
    method Setup()
      requires Aligned(View()) && ValidOptions(options)
      modifies this
      ensures Valid()
      ensures View() == SetUp(options, old(View()))
    {
      UpdateItems();
      var i := 0;
      while i < |dragItems|
        invariant 0 <= i <= |dragItems| == |items|
        invariant dragItems == Handles(items)
        invariant items == old(items) && classes == old(classes)
        invariant focused == old(focused) && pending == old(pending) && lastChange == old(lastChange)
        invariant |dragOn| == |ariaGrabbed| == |items|
        invariant forall j :: 0 <= j < i ==> !dragOn[j] && !ariaGrabbed[j]
        invariant forall j :: i <= j < |items| ==> dragOn[j] == old(dragOn[j]) && ariaGrabbed[j] == old(ariaGrabbed[j])
      {
        dragOn := dragOn[i := false];
        ariaGrabbed := ariaGrabbed[i := false];
        i := i + 1;
      }
      if options.activeClass != "" {
        RemoveClass(options.activeClass);
      }
      if options.inactiveClass != "" {
        RemoveClass(options.inactiveClass);
      }
      SetUpState(options, old(View()));
    }

    /** `$items.removeClass(name)`. */
    method RemoveClass(name: string)
      modifies this`classes
      ensures classes == WithoutClass(old(classes), name)
    {
      var i := 0;
      while i < |classes|
        invariant 0 <= i <= |classes| == |old(classes)|
        invariant forall j :: 0 <= j < i ==> classes[j] == old(classes[j]) - {name}
        invariant forall j :: i <= j < |classes| ==> classes[j] == old(classes[j])
      {
        classes := classes[i := classes[i] - {name}];
        i := i + 1;
      }
    }

    /** `toggleClass(name)` on every item but the one at `k`. */
    method ToggleClassExcept(k: nat, name: string)
      modifies this`classes
      ensures classes == ToggleExcept(old(classes), k, name)
    {
      var i := 0;
      while i < |classes|
        invariant 0 <= i <= |classes| == |old(classes)|
        invariant forall j :: 0 <= j < i ==> classes[j] == if j == k then old(classes[j]) else Toggle(old(classes[j]), name)
        invariant forall j :: i <= j < |classes| ==> classes[j] == old(classes[j])
      {
        if i != k {
          classes := classes[i := Toggle(classes[i], name)];
        }
        i := i + 1;
      }
    }

    /** `cleanUp`: remove the configured classes from every item and clear every flag. */
    method CleanUp()
      requires Aligned(View())
      modifies this`classes, this`dragOn
      ensures View() == GrabRelease.CleanUp(options, old(View()))
    {
      if options.activeClass != "" {
        RemoveClass(options.activeClass);
      }
      if options.inactiveClass != "" {
        RemoveClass(options.inactiveClass);
      }
      ghost var cleaned := classes;
      assert cleaned == CleanedClasses(options, old(classes));
      var i := 0;
      while i < |dragOn|
        invariant 0 <= i <= |dragOn| == |items|
        invariant classes == cleaned
        invariant forall j :: 0 <= j < i ==> !dragOn[j]
      {
        dragOn := dragOn[i := false];
        i := i + 1;
      }
      assert dragOn == AllFalse(|items|);
    }

    /** `onDraggableClick` on `handle`. */
    method Click(handle: nat)
      requires Valid() && handle in dragItems
      modifies this
      ensures Valid()
      ensures View() == GrabRelease.Click(options, old(View()), handle)
    {
      UpdateItems();
      var itemIndex := IndexOf(dragItems, handle);
      ghost var s0 := View();
      ClickPreservesInvariant(options, s0, handle);
      ghost var r := GrabRelease.Click(options, s0, handle);
      var wasDragging := dragOn[itemIndex];
      var isDragging := !wasDragging;
      CleanUp();
      if isDragging {
        Grab(itemIndex);
      }
      ariaGrabbed := ariaGrabbed[itemIndex := isDragging];
      var ann := options.announcement;
      if ann.grab != "" && ann.drop != "" {
        var text := GrabSubject(options, items[itemIndex]);
        var textOpt := if isDragging then ann.grab else ann.drop;
        var annText := Replace(textOpt, [text, NatToString(itemIndex), NatToString(|items|)]);
        if annText != "" {
          pending := Some(annText);
        }
      }
      assert View() == r;
    }

    /** The grabbing branch of `onDraggableClick`: flag the handle at `k` and set the classes. */
    method Grab(k: nat)
      requires k < |dragOn| && k < |classes|
      modifies this`dragOn, this`classes
      ensures dragOn == old(dragOn)[k := true]
      ensures classes == GrabClasses(options, old(classes), k)
    {
      dragOn := dragOn[k := true];
      if options.activeClass != "" {
        classes := classes[k := Toggle(classes[k], options.activeClass)];
      }
      if options.inactiveClass != "" {
        RemoveClass(options.inactiveClass);
        ToggleClassExcept(k, options.inactiveClass);
      }
    }

    /** `onDraggableKeydown` for key `which` on `handle`; returns whether the default was prevented. */
    method KeyDown(which: int, handle: nat) returns (prevented: bool)
      requires Valid() && handle in dragItems
      modifies this
      ensures Valid()
      ensures (View(), prevented) == Keyboard.KeyDown(options, old(View()), which, handle)
    {
      var grabbed := dragOn[IndexOf(dragItems, handle)];
      if which == Enter || which == Space {
        prevented := true;
        Click(handle);
      } else if IsArrow(which) {
        if grabbed {
          prevented := true;
          ArrowHandler(which, handle);
        } else {
          prevented := false;
        }
      } else if which == Tab {
        if grabbed {
          Click(handle);
        }
        prevented := false;
      } else {
        prevented := false;
      }
    }

    /** `arrowHandler(key, handle)`. */
    method ArrowHandler(key: int, handle: nat)
      requires Valid()
      modifies this
      ensures Valid()
      ensures View() == ArrowKey(options, old(View()), key, handle)
    {
      var isUp := IsUp(key);
      var index := IndexOf(dragItems, handle);
      if EndOfLine(index, isUp, |dragItems|) {
        return;
      }
      var adjacent := Neighbour(index, isUp);
      if 0 <= adjacent < |dragItems| {
        Swap(handle, dragItems[adjacent], isUp);
      }
    }

    /** `swap(old, newDrag, isUp)`. */
    method Swap(oldHandle: nat, newHandle: nat, isUp: bool)
      requires Valid() && oldHandle in dragItems && newHandle in dragItems
      modifies this
      ensures Valid()
      ensures View() == MoveEngine.Swap(options, old(View()), oldHandle, newHandle, isUp)
    {
      var newIndex := IndexOf(dragItems, newHandle);
      var oldIndex := IndexOf(dragItems, oldHandle);
      ghost var s0 := View();
      assert items[oldIndex].handle == oldHandle && items[newIndex].handle == newHandle;
      SwapAt(options, s0, oldIndex, newIndex, isUp);
      SwapPreservesInvariant(options, s0, oldHandle, newHandle, isUp);
      ghost var r := MoveEngine.Swap(options, s0, oldHandle, newHandle, isUp);
      var oldItem := items[oldIndex];
      var dest := Landing(oldIndex, newIndex, isUp);
      MoveRow(oldIndex, dest);
      focused := Some(dest);
      UpdateItems();
      if options.hasOnChange {
        lastChange := Some(Change(oldItem, items));
      }
      AnnounceReorder(oldItem);
      assert View() == r;
    }

    /** The reorder announcement of `swap`, naming `moved` and its 1-based position in `items`. */
    method AnnounceReorder(moved: Item)
      requires Count(options.announcement.reorder) <= 3
      modifies this`pending
      ensures var reorder := options.announcement.reorder;
        pending == if reorder == "" then old(pending) else
          Announce(old(pending), Replace(reorder, [ReorderSubject(options, moved),
            NatToString(IndexOf(ItemIds(items), moved.id) + 1), NatToString(|items|)]))
    {
      var a := options.announcement;
      if a.reorder != "" {
        var itemText := ReorderSubject(options, moved);
        var annString := Replace(a.reorder, [itemText, NatToString(IndexOf(ItemIds(items), moved.id) + 1), NatToString(|items|)]);
        if annString != "" {
          pending := Some(annString);
        }
      }
    }

    /**
     * `insertBefore` / `insertAfter`: the row at `from` moves to index `to`,
     * carrying its element data, classes and attributes with it.
     */
    method MoveRow(from: nat, to: nat)
      requires from < |items| == |dragOn| == |classes| == |ariaGrabbed| && to < |items|
      modifies this`items, this`dragOn, this`classes, this`ariaGrabbed
      ensures items == Relocate(old(items), from, to) && dragOn == Relocate(old(dragOn), from, to)
      ensures classes == Relocate(old(classes), from, to) && ariaGrabbed == Relocate(old(ariaGrabbed), from, to)
    {
      items := Relocate(items, from, to);
      dragOn := Relocate(dragOn, from, to);
      classes := Relocate(classes, from, to);
      ariaGrabbed := Relocate(ariaGrabbed, from, to);
    }
  }
}
