/**
 * The keyboard move engine of dragon-drop (`arrowHandler`, `swap`,
 * `endOfLine`): a grabbed row moves one place toward the start or the end of
 * the list, focus follows it, the change callback is told and the new
 * 1-based position is announced.
 */
module MoveEngine {
  import opened Wrappers
  import opened Templater
  import opened Rows
  import opened Widget

  /** The position next to `i` in the direction of the move. */
  function Neighbour(i: int, isUp: bool): int
  {
    if isUp then i - 1 else i + 1
  }

  /**
   * `endOfLine(i, isUp, len)`: for a position found by `$.inArray`, true
   * exactly when there is no row to move past (the handle is not listed, or
   * there is no neighbour in the direction of the move).
   */
  function EndOfLine(i: int, isUp: bool, len: int): (r: bool)
    ensures -1 <= i < len ==> (r <==> !(0 <= i && 0 <= Neighbour(i, isUp) < len))
  {
    i == -1 || (isUp && i == 0) || (!isUp && i == len - 1)
  }

  /** Keys 37 (left) and 38 (up) move toward the start; 39 and 40 toward the end. */
  function IsUp(key: int): bool
  {
    key == 37 || key == 38
  }

  /** The text a reorder announcement names: the text selector's match, or the item's own text. */
  function ReorderSubject(o: Options, item: Item): string
  {
    if o.announcement.textSelector != "" then item.labelText else item.text
  }

  /**
   * `swap(old, newDrag, isUp)`: the item of handle `oldHandle` is inserted
   * before (isUp) or after the item of handle `newHandle`; its per-row state
   * moves with it; focus goes to the moved handle; `onChange` receives the
   * moved item and the re-indexed items; the reorder announcement gives the
   * moved item's new 1-based position and the item count.
   */
  function Swap(o: Options, s: State, oldHandle: nat, newHandle: nat, isUp: bool): State
    requires Aligned(s) && ValidOptions(o)
    requires oldHandle in Handles(s.items) && newHandle in Handles(s.items)
  {
    var newIndex := IndexOf(Handles(s.items), newHandle);
    var oldIndex := IndexOf(Handles(s.items), oldHandle);
    var moved := s.items[oldIndex];
    var dest := Landing(oldIndex, newIndex, isUp);
    var items := Relocate(s.items, oldIndex, dest);
    var reorder := o.announcement.reorder;
    var position := IndexOf(ItemIds(items), moved.id) + 1;
    State(
      items,
      Relocate(s.dragOn, oldIndex, dest),
      Relocate(s.classes, oldIndex, dest),
      Relocate(s.ariaGrabbed, oldIndex, dest),
      Some(dest),
      if reorder != "" then
        Announce(s.pending, Replace(reorder, [ReorderSubject(o, moved), NatToString(position), NatToString(|items|)]))
      else s.pending,
      if o.hasOnChange then Some(Change(moved, items)) else s.lastChange)
  }

  /**
   * Where the moved row lands: just before (isUp) or just after the reference
   * row. It always lands between where it was and the reference row.
   */
  function Landing(from: nat, ref: nat, isUp: bool): (d: nat)
    ensures from <= d <= ref || ref <= d <= from
  {
    if isUp then BeforeIndex(from, ref) else AfterIndex(from, ref)
  }

  /** A swap of the rows at `k` and `m`, with the lookups of their handles done. */
  lemma SwapAt(o: Options, s: State, k: nat, m: nat, isUp: bool)
    requires Aligned(s) && ValidOptions(o) && k < |s.items| && m < |s.items|
    ensures var d := Landing(k, m, isUp);
      var r := Swap(o, s, s.items[k].handle, s.items[m].handle, isUp);
      && d < |s.items|
      && r.items == Relocate(s.items, k, d)
      && r.dragOn == Relocate(s.dragOn, k, d)
      && r.classes == Relocate(s.classes, k, d)
      && r.ariaGrabbed == Relocate(s.ariaGrabbed, k, d)
      && r.focused == Some(d)
      && r.lastChange == (if o.hasOnChange then Some(Change(s.items[k], r.items)) else s.lastChange)
  {
    IndexOfDistinct(Handles(s.items), k);
    IndexOfDistinct(Handles(s.items), m);
  }

  /**
   * After a swap of the rows at `k` and `m`, re-indexing finds the moved item
   * at its landing index, so the announced position is that index plus one.
   */
  lemma SwapAnnounces(o: Options, s: State, k: nat, m: nat, isUp: bool)
    requires Aligned(s) && ValidOptions(o) && k < |s.items| && m < |s.items|
    ensures var d := Landing(k, m, isUp);
      var r := Swap(o, s, s.items[k].handle, s.items[m].handle, isUp);
      && IndexOf(ItemIds(r.items), s.items[k].id) == d
      && r.pending == (if o.announcement.reorder == "" then s.pending
                       else Announce(s.pending, Replace(o.announcement.reorder,
                              [ReorderSubject(o, s.items[k]), NatToString(d + 1), NatToString(|s.items|)])))
  {
    var d := Landing(k, m, isUp);
    SwapAt(o, s, k, m, isUp);
    RelocateRows(s.items, k, d);
    RelocateDistinct(ItemIds(s.items), k, d);
    IndexOfDistinct(ItemIds(Relocate(s.items, k, d)), d);
  }

  /**
   * `arrowHandler(key, handle)`: at the ends of the list, or for a handle
   * that is not listed, nothing happens; otherwise the row swaps with its
   * neighbour in the direction of the key.
   */
  function ArrowKey(o: Options, s: State, key: int, handle: nat): State
    requires Aligned(s) && ValidOptions(o)
  {
    var isUp := IsUp(key);
    var index := IndexOf(Handles(s.items), handle);
    if EndOfLine(index, isUp, |s.items|) then s
    else
      var adjacent := Neighbour(index, isUp);
      if 0 <= adjacent < |s.items| then Swap(o, s, handle, s.items[adjacent].handle, isUp)
      else s
  }

  /**
   * Moving the first row toward the start, the last row toward the end, or a
   * handle that is not listed, changes nothing: order, flags, classes, focus,
   * announcement and change record all stay.
   */
  lemma ArrowAtEndIsNoOp(o: Options, s: State, key: int, handle: nat)
    requires Aligned(s) && ValidOptions(o)
    requires || handle !in Handles(s.items)
             || (IsUp(key) && |s.items| > 0 && handle == s.items[0].handle)
             || (!IsUp(key) && |s.items| > 0 && handle == s.items[|s.items| - 1].handle)
    ensures ArrowKey(o, s, key, handle) == s
  {
    if |s.items| > 0 {
      IndexOfDistinct(Handles(s.items), 0);
      IndexOfDistinct(Handles(s.items), |s.items| - 1);
    }
  }

  /** The row at `k` has a neighbour in the direction of `isUp`. */
  predicate CanMove(n: nat, k: nat, isUp: bool)
  {
    k < n && 0 <= Neighbour(k, isUp) < n
  }

  /**
   * A move of the row at `k` exchanges it with its neighbour `j`, together
   * with their flags, classes and `aria-grabbed`.
   */
  lemma ArrowMoveExchanges(o: Options, s: State, key: int, k: nat)
    requires Aligned(s) && ValidOptions(o) && CanMove(|s.items|, k, IsUp(key))
    ensures var j := Neighbour(k, IsUp(key));
      var r := ArrowKey(o, s, key, s.items[k].handle);
      && r.items == Exchange(s.items, k, j)
      && r.dragOn == Exchange(s.dragOn, k, j)
      && r.classes == Exchange(s.classes, k, j)
      && r.ariaGrabbed == Exchange(s.ariaGrabbed, k, j)
  {
    var isUp := IsUp(key);
    var j := Neighbour(k, isUp);
    ArrowAt(o, s, key, k);
    SwapAt(o, s, k, j, isUp);
    RelocateAdjacent(s.items, k, j);
    RelocateAdjacent(s.dragOn, k, j);
    RelocateAdjacent(s.classes, k, j);
    RelocateAdjacent(s.ariaGrabbed, k, j);
  }

  /**
   * A move keeps the items a permutation of those before, moves no row other
   * than the two exchanged, and leaves focus on the moved handle, which is
   * still grabbed if it was.
   */
  lemma ArrowMoveKeepsOthers(o: Options, s: State, key: int, k: nat)
    requires Aligned(s) && ValidOptions(o) && CanMove(|s.items|, k, IsUp(key))
    ensures var j := Neighbour(k, IsUp(key));
      var r := ArrowKey(o, s, key, s.items[k].handle);
      && |r.items| == |s.items|
      && multiset(r.items) == multiset(s.items)
      && (forall i :: 0 <= i < |s.items| && i != k && i != j ==> r.items[i] == s.items[i])
      && r.focused == Some(j) && r.items[j] == s.items[k]
      && r.dragOn[j] == s.dragOn[k]
  {
    var isUp := IsUp(key);
    var j := Neighbour(k, isUp);
    ArrowRelocates(o, s, key, k);
    RelocateAdjacent(s.items, k, j);
    RelocateAdjacent(s.dragOn, k, j);
    RelocatePermutes(s.items, k, j);
  }

  /** An arrow key on the handle at `k`, when the row can move, is a swap with the neighbour. */
  lemma ArrowAt(o: Options, s: State, key: int, k: nat)
    requires Aligned(s) && ValidOptions(o) && CanMove(|s.items|, k, IsUp(key))
    ensures var j := Neighbour(k, IsUp(key));
      && Landing(k, j, IsUp(key)) == j
      && ArrowKey(o, s, key, s.items[k].handle) == Swap(o, s, s.items[k].handle, s.items[j].handle, IsUp(key))
  {
    IndexOfDistinct(Handles(s.items), k);
  }

  /** After a move of the row at `k`, looking up the moved item finds its neighbour's old index `j`. */
  lemma MovedPosition(o: Options, s: State, key: int, k: nat)
    requires Aligned(s) && ValidOptions(o) && CanMove(|s.items|, k, IsUp(key))
    ensures var r := ArrowKey(o, s, key, s.items[k].handle);
      IndexOf(ItemIds(r.items), s.items[k].id) == Neighbour(k, IsUp(key))
  {
    var j := Neighbour(k, IsUp(key));
    var items := ArrowKey(o, s, key, s.items[k].handle).items;
    ArrowRelocates(o, s, key, k);
    RelocateRows(s.items, k, j);
    RelocateDistinct(ItemIds(s.items), k, j);
    IndexOfDistinct(ItemIds(items), j);
  }

  /** A move of the row at `k` relocates it, with its flag, onto its neighbour's index. */
  lemma ArrowRelocates(o: Options, s: State, key: int, k: nat)
    requires Aligned(s) && ValidOptions(o) && CanMove(|s.items|, k, IsUp(key))
    ensures var j := Neighbour(k, IsUp(key));
      var r := ArrowKey(o, s, key, s.items[k].handle);
      && r.items == Relocate(s.items, k, j)
      && r.dragOn == Relocate(s.dragOn, k, j)
      && r.focused == Some(j)
  {
    ArrowAt(o, s, key, k);
    SwapAt(o, s, k, Neighbour(k, IsUp(key)), IsUp(key));
  }

  /**
   * A move tells `onChange` the moved item and the new order, and announces
   * the moved item's new 1-based position (`k` toward the start, `k + 2`
   * toward the end) and the unchanged item count; nothing is announced when
   * the reorder template is empty.
   */
  lemma ArrowMoveAnnounces(o: Options, s: State, key: int, k: nat)
    requires Aligned(s) && ValidOptions(o) && CanMove(|s.items|, k, IsUp(key))
    ensures var r := ArrowKey(o, s, key, s.items[k].handle);
      var position := if IsUp(key) then k else k + 2;
      var reorder := o.announcement.reorder;
      && r.lastChange == (if o.hasOnChange then Some(Change(s.items[k], r.items)) else s.lastChange)
      && r.pending == (if reorder == "" then s.pending
                       else Announce(s.pending, Replace(reorder,
                              [ReorderSubject(o, s.items[k]), NatToString(position), NatToString(|s.items|)])))
  {
    var isUp := IsUp(key);
    var j := Neighbour(k, isUp);
    ArrowAt(o, s, key, k);
    SwapAt(o, s, k, j, isUp);
    SwapAnnounces(o, s, k, j, isUp);
    var position := if isUp then k else k + 2;
    assert Landing(k, j, isUp) + 1 == position;
  }

  /** With the default templates the announcement reads "... <text> is now item <p> of <n>". */
  lemma ArrowMoveDefaultText(o: Options, s: State, key: int, k: nat)
    requires Aligned(s) && ValidOptions(o) && CanMove(|s.items|, k, IsUp(key))
    requires o.announcement == DefaultOptions().announcement
    ensures var r := ArrowKey(o, s, key, s.items[k].handle);
      r.pending == Some("The list has been reordered. " + s.items[k].text + " is now item "
                        + NatToString(if IsUp(key) then k else k + 2) + " of " + NatToString(|s.items|))
  {
    ArrowMoveAnnounces(o, s, key, k);
    DefaultReorderText(s.items[k].text, NatToString(if IsUp(key) then k else k + 2), NatToString(|s.items|));
  }

  /** Relocating rows relocates their element ids and handles alike. */
  lemma RelocateRows(items: seq<Item>, from: nat, to: nat)
    requires from < |items| && to < |items|
    ensures ItemIds(Relocate(items, from, to)) == Relocate(ItemIds(items), from, to)
    ensures Handles(Relocate(items, from, to)) == Relocate(Handles(items), from, to)
  {
    var r := Relocate(items, from, to);
    forall i | 0 <= i < |items|
      ensures ItemIds(r)[i] == Relocate(ItemIds(items), from, to)[i]
      ensures Handles(r)[i] == Relocate(Handles(items), from, to)[i]
    {
      RelocateIndex(items, from, to, i);
      RelocateIndex(ItemIds(items), from, to, i);
      RelocateIndex(Handles(items), from, to, i);
    }
  }

  /** Relocating flags keeps at most one of them set. */
  lemma RelocateAtMostOne(flags: seq<bool>, from: nat, to: nat)
    requires from < |flags| && to < |flags| && AtMostOne(flags)
    ensures AtMostOne(Relocate(flags, from, to))
  {
    var r := Relocate(flags, from, to);
    forall i, j | 0 <= i < |r| && 0 <= j < |r| && r[i] && r[j] ensures i == j {
      RelocateIndex(flags, from, to, i);
      RelocateIndex(flags, from, to, j);
      SourceInjective(from, to, i, j);
    }
  }

  /** Any swap keeps the widget's invariant: rows are only reordered. */
  lemma SwapPreservesInvariant(o: Options, s: State, oldHandle: nat, newHandle: nat, isUp: bool)
    requires Invariant(s) && ValidOptions(o)
    requires oldHandle in Handles(s.items) && newHandle in Handles(s.items)
    ensures var r := Swap(o, s, oldHandle, newHandle, isUp);
      Invariant(r)
  {
    var hs := Handles(s.items);
    var k := IndexOf(hs, oldHandle);
    var m := IndexOf(hs, newHandle);
    var d := Landing(k, m, isUp);
    SwapAt(o, s, k, m, isUp);
    RelocateRows(s.items, k, d);
    RelocateDistinct(ItemIds(s.items), k, d);
    RelocateDistinct(hs, k, d);
    RelocateAtMostOne(s.dragOn, k, d);
  }

  /** A swap only reorders the items: none is lost, none is duplicated. */
  lemma SwapPermutes(o: Options, s: State, oldHandle: nat, newHandle: nat, isUp: bool)
    requires Aligned(s) && ValidOptions(o)
    requires oldHandle in Handles(s.items) && newHandle in Handles(s.items)
    ensures multiset(Swap(o, s, oldHandle, newHandle, isUp).items) == multiset(s.items)
  {
    var hs := Handles(s.items);
    var k := IndexOf(hs, oldHandle);
    var m := IndexOf(hs, newHandle);
    SwapAt(o, s, k, m, isUp);
    RelocatePermutes(s.items, k, Landing(k, m, isUp));
  }

  /** An arrow key keeps the widget's invariant. */
  lemma ArrowPreservesInvariant(o: Options, s: State, key: int, handle: nat)
    requires Invariant(s) && ValidOptions(o)
    ensures Invariant(ArrowKey(o, s, key, handle))
    ensures multiset(ArrowKey(o, s, key, handle).items) == multiset(s.items)
  {
    var isUp := IsUp(key);
    var index := IndexOf(Handles(s.items), handle);
    if !EndOfLine(index, isUp, |s.items|) {
      var adjacent := Neighbour(index, isUp);
      SwapPreservesInvariant(o, s, handle, s.items[adjacent].handle, isUp);
      SwapPermutes(o, s, handle, s.items[adjacent].handle, isUp);
    }
  }
}
