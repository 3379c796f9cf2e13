/**
 * Sequence operations the widget performs on its ordered rows: looking an
 * element up (`$.inArray`) and relocating one element before or after
 * another (jQuery's `insertBefore` / `insertAfter` on a row of the list).
 */
module Rows {

  /** No element occurs twice (DOM elements are distinct objects). */
  predicate Distinct<T(==)>(s: seq<T>)
  {
    forall i, j :: 0 <= i < |s| && 0 <= j < |s| && s[i] == s[j] ==> i == j
  }

  /**
   * `$.inArray(x, s)`: the position of the first occurrence of `x`, or -1
   * when `x` does not occur.
   */
  function IndexOf<T(==)>(s: seq<T>, x: T): (r: int)
    ensures -1 <= r < |s|
    ensures r == -1 <==> x !in s
    ensures 0 <= r ==> s[r] == x && x !in s[..r]
  {
    if |s| == 0 then -1
    else if s[0] == x then 0
    else
      var j := IndexOf(s[1..], x);
      assert 0 <= j ==> s[..j + 1] == [s[0]] + s[1..][..j];
      if j == -1 then -1 else j + 1
  }

  /** In a sequence without repetitions, looking up the element at `i` finds `i`. */
  lemma IndexOfDistinct<T>(s: seq<T>, i: int)
    requires Distinct(s) && 0 <= i < |s|
    ensures IndexOf(s, s[i]) == i
  {
    var r := IndexOf(s, s[i]);
    assert s[r] == s[i];
  }

  /**
   * The sequence with `s[from]` taken out and put back so that it lands at
   * index `to`; every other element keeps its relative order.
   */
  function Relocate<T>(s: seq<T>, from: nat, to: nat): (r: seq<T>)
    requires from < |s| && to < |s|
    ensures |r| == |s| && r[to] == s[from]
  {
    var rest := s[..from] + s[from + 1..];
    rest[..to] + [s[from]] + rest[to..]
  }

  /** Relocation is a permutation: the result holds the same elements, as often. */
  lemma RelocatePermutes<T>(s: seq<T>, from: nat, to: nat)
    requires from < |s| && to < |s|
    ensures multiset(Relocate(s, from, to)) == multiset(s)
  {
    var rest := s[..from] + s[from + 1..];
    var moved := Relocate(s, from, to);
    assert moved == rest[..to] + [s[from]] + rest[to..];
    assert s == s[..from] + [s[from]] + s[from + 1..];
    assert rest == rest[..to] + rest[to..];
    calc {
      multiset(moved);
      multiset(rest[..to]) + multiset(rest[to..]) + multiset{s[from]};
      multiset(rest) + multiset{s[from]};
      multiset(s[..from]) + multiset(s[from + 1..]) + multiset{s[from]};
      multiset(s);
    }
  }

  /** `s` without the element at `i`. */
  function Without<T>(s: seq<T>, i: nat): (r: seq<T>)
    requires i < |s|
    ensures |r| == |s| - 1
  {
    s[..i] + s[i + 1..]
  }

  /**
   * Relocation moves exactly one element: removing it from the result leaves
   * the others in their original relative order.
   */
  lemma RelocateKeepsOthers<T>(s: seq<T>, from: nat, to: nat)
    requires from < |s| && to < |s|
    ensures Without(Relocate(s, from, to), to) == Without(s, from)
  {
    var rest := s[..from] + s[from + 1..];
    var r := Relocate(s, from, to);
    assert r == rest[..to] + [s[from]] + rest[to..];
    assert r[..to] == rest[..to];
    assert r[to + 1..] == rest[to..];
  }

  /** The index at which `insertBefore(ref)` leaves the element that was at `from`. */
  function BeforeIndex(from: nat, ref: nat): nat
  {
    if from < ref then ref - 1 else ref
  }

  /** The index at which `insertAfter(ref)` leaves the element that was at `from`. */
  function AfterIndex(from: nat, ref: nat): nat
  {
    if from <= ref then ref else ref + 1
  }

  /**
   * `$(s[from]).insertBefore(s[ref])`: the element at `from` is moved so that
   * it immediately precedes the element at `ref`.
   */
  function InsertBefore<T>(s: seq<T>, from: nat, ref: nat): (r: seq<T>)
    requires from < |s| && ref < |s|
  {
    Relocate(s, from, BeforeIndex(from, ref))
  }

  /**
   * `$(s[from]).insertAfter(s[ref])`: the element at `from` is moved so that
   * it immediately follows the element at `ref`.
   */
  function InsertAfter<T>(s: seq<T>, from: nat, ref: nat): (r: seq<T>)
    requires from < |s| && ref < |s|
  {
    Relocate(s, from, AfterIndex(from, ref))
  }

  /** `insertBefore` puts the moved element right in front of the reference element. */
  lemma InsertBeforePlacement<T>(s: seq<T>, from: nat, ref: nat)
    requires from < |s| && ref < |s| && from != ref
    ensures var d := BeforeIndex(from, ref);
      d + 1 < |s| && InsertBefore(s, from, ref)[d] == s[from] && InsertBefore(s, from, ref)[d + 1] == s[ref]
  {
    var d := BeforeIndex(from, ref);
    var rest := s[..from] + s[from + 1..];
    var r := InsertBefore(s, from, ref);
    assert r == rest[..d] + [s[from]] + rest[d..];
    if from < ref {
      assert rest[d] == s[ref];
    } else {
      assert rest[d] == s[ref];
    }
  }

  /** `insertAfter` puts the moved element right behind the reference element. */
  lemma InsertAfterPlacement<T>(s: seq<T>, from: nat, ref: nat)
    requires from < |s| && ref < |s| && from != ref
    ensures var d := AfterIndex(from, ref);
      0 < d < |s| && InsertAfter(s, from, ref)[d] == s[from] && InsertAfter(s, from, ref)[d - 1] == s[ref]
  {
    var d := AfterIndex(from, ref);
    var rest := s[..from] + s[from + 1..];
    var r := InsertAfter(s, from, ref);
    assert r == rest[..d] + [s[from]] + rest[d..];
    if from < ref {
      assert rest[d - 1] == s[ref];
    } else {
      assert rest[d - 1] == s[ref];
    }
  }

  /** `s` with the elements at `i` and `j` exchanged. */
  function Exchange<T>(s: seq<T>, i: nat, j: nat): (r: seq<T>)
    requires i < |s| && j < |s|
  {
    s[i := s[j]][j := s[i]]
  }

  /** Relocating an element by one place exchanges it with its neighbour. */
  lemma RelocateAdjacent<T>(s: seq<T>, i: nat, j: nat)
    requires i < |s| && j < |s| && (j == i + 1 || i == j + 1)
    ensures Relocate(s, i, j) == Exchange(s, i, j)
  {
    var r := Relocate(s, i, j);
    forall k | 0 <= k < |s| ensures r[k] == Exchange(s, i, j)[k] {
      RelocateIndex(s, i, j, k);
    }
  }

  /**
   * Moving an element in front of its predecessor, or behind its successor,
   * exchanges the two and leaves every other position as it was.
   */
  lemma AdjacentMoveExchanges<T>(s: seq<T>, i: nat, isUp: bool)
    requires i < |s|
    requires isUp ==> 0 < i
    requires !isUp ==> i + 1 < |s|
    ensures isUp ==> InsertBefore(s, i, i - 1) == Exchange(s, i, i - 1)
    ensures !isUp ==> InsertAfter(s, i, i + 1) == Exchange(s, i, i + 1)
  {
    if isUp {
      RelocateAdjacent(s, i, i - 1);
    } else {
      RelocateAdjacent(s, i, i + 1);
    }
  }

  /** Relocation keeps a sequence free of repetitions. */
  lemma RelocateDistinct<T>(s: seq<T>, from: nat, to: nat)
    requires from < |s| && to < |s| && Distinct(s)
    ensures Distinct(Relocate(s, from, to))
  {
    var r := Relocate(s, from, to);
    forall i, j | 0 <= i < |r| && 0 <= j < |r| && r[i] == r[j] ensures i == j {
      RelocateIndex(s, from, to, i);
      RelocateIndex(s, from, to, j);
    }
  }

  /** Where the element at index `k` of the result came from. */
  function Source(from: nat, to: nat, k: nat): nat
  {
    if k == to then from
    else if k < to && k < from then k
    else if k > to && k > from then k
    else if k < to then k + 1
    else k - 1
  }

  /** Each index of the relocated sequence holds the element at `Source` of the original. */
  lemma RelocateIndex<T>(s: seq<T>, from: nat, to: nat, k: nat)
    requires from < |s| && to < |s| && k < |s|
    ensures Source(from, to, k) < |s| && Relocate(s, from, to)[k] == s[Source(from, to, k)]
  {
  }

  /** `Source` is one-to-one, so relocation is a bijection on positions. */
  lemma SourceInjective(from: nat, to: nat, i: nat, j: nat)
    requires Source(from, to, i) == Source(from, to, j)
    ensures i == j
  {
  }
}
