/**
 * The announcement templater of dragon-drop: positional substitution of the
 * placeholder "%s", as done by `text.replace(/%s/g, ...)` with a counter that
 * hands out the arguments in order, plus the decimal rendering JavaScript
 * applies to the numeric arguments (indices and lengths).
 */
module Templater {

  /** True when `s` holds the two characters "%s" starting at position `i`. */
  predicate PlaceholderAt(s: string, i: int)
  {
    0 <= i && i + 1 < |s| && s[i] == '%' && s[i + 1] == 's'
  }

  /** True when "%s" occurs anywhere in `s`. */
  predicate HasPlaceholder(s: string)
  {
    exists i :: 0 <= i < |s| && PlaceholderAt(s, i)
  }

  /**
   * The number of matches a global, left-to-right, non-overlapping scan for
   * "%s" finds in `text`.
   */
  function Count(text: string): (r: nat)
    ensures 2 * r <= |text|
  {
    if |text| < 2 then 0
    else if text[0] == '%' && text[1] == 's' then 1 + Count(text[2..])
    else Count(text[1..])
  }

  /**
   * `replacer(text, replacees)`: the k-th match of "%s", scanning left to
   * right, becomes `args[k]`; every other character is copied. Each match
   * gives up its two characters for the argument it receives.
   */
  function Replace(text: string, args: seq<string>): (r: string)
    requires Count(text) <= |args|
    ensures |r| == |text| - 2 * Count(text) + TotalLength(args, Count(text))
  {
    if |text| < 2 then text
    else if text[0] == '%' && text[1] == 's' then args[0] + Replace(text[2..], args[1..])
    else [text[0]] + Replace(text[1..], args)
  }

  /** The total length of the first `n` arguments. */
  function TotalLength(args: seq<string>, n: nat): nat
    requires n <= |args|
  {
    if n == 0 then 0 else |args[0]| + TotalLength(args[1..], n - 1)
  }

  /** `segs[0] + args[0] + segs[1] + ... + args[n-1] + segs[n]`. */
  function Fill(segs: seq<string>, args: seq<string>): string
    requires |segs| == |args| + 1
  {
    if |args| == 0 then segs[0]
    else segs[0] + args[0] + Fill(segs[1..], args[1..])
  }

  /** The template whose fixed parts are `segs`, joined by placeholders. */
  function Template(segs: seq<string>): (t: string)
    requires |segs| >= 1
  {
    if |segs| == 1 then segs[0]
    else segs[0] + "%s" + Template(segs[1..])
  }

  /** No placeholder survives in any of `segs`. */
  predicate PlainSegments(segs: seq<string>)
  {
    forall k :: 0 <= k < |segs| ==> !HasPlaceholder(segs[k])
  }

  /** The scan finds no match exactly when the text holds no "%s". */
  lemma {:induction false} CountZeroIffNoPlaceholder(text: string)
    ensures Count(text) == 0 <==> !HasPlaceholder(text)
  {
    if |text| < 2 {
      assert forall i :: !PlaceholderAt(text, i);
    } else if text[0] == '%' && text[1] == 's' {
      assert PlaceholderAt(text, 0);
    } else {
      CountZeroIffNoPlaceholder(text[1..]);
      if HasPlaceholder(text) {
        var i :| 0 <= i < |text| && PlaceholderAt(text, i);
        assert i >= 1;
        assert PlaceholderAt(text[1..], i - 1);
      }
      if HasPlaceholder(text[1..]) {
        var i :| 0 <= i < |text[1..]| && PlaceholderAt(text[1..], i);
        assert PlaceholderAt(text, i + 1);
      }
    }
  }

  /** Text without "%s" comes back unchanged, whatever the arguments. */
  lemma {:induction false} ReplaceWithoutPlaceholder(text: string, args: seq<string>)
    requires !HasPlaceholder(text)
    ensures Count(text) == 0
    ensures Replace(text, args) == text
  {
    CountZeroIffNoPlaceholder(text);
    if |text| >= 2 {
      assert !PlaceholderAt(text, 0);
      if HasPlaceholder(text[1..]) {
        var i :| 0 <= i < |text[1..]| && PlaceholderAt(text[1..], i);
        assert PlaceholderAt(text, i + 1);
      }
      ReplaceWithoutPlaceholder(text[1..], args);
      assert [text[0]] + text[1..] == text;
    }
  }

  /** A placeholder-free text does not start with "%s", and its tail is placeholder-free too. */
  lemma PlainTail(s: string)
    requires !HasPlaceholder(s) && |s| > 0
    ensures !PlaceholderAt(s, 0) && !HasPlaceholder(s[1..])
  {
    if HasPlaceholder(s[1..]) {
      var i :| 0 <= i < |s[1..]| && PlaceholderAt(s[1..], i);
      assert PlaceholderAt(s, i + 1);
    }
  }

  /** The scan steps over the first character of a non-empty placeholder-free prefix. */
  lemma PlainPrefixStep(s: string, t: string)
    requires !HasPlaceholder(s) && |s| > 0
    ensures var text := s + "%s" + t;
      && !(text[0] == '%' && text[1] == 's')
      && text[1..] == s[1..] + "%s" + t
      && !HasPlaceholder(s[1..])
  {
    var text := s + "%s" + t;
    PlainTail(s);
    if |s| == 1 {
      assert text[1] == '%';
    } else {
      assert text[1] == s[1];
    }
    assert text[1..] == s[1..] + "%s" + t;
  }

  /** The scan finds one more match behind a placeholder-free prefix and a placeholder. */
  lemma {:induction false} CountAfterPlainPrefix(s: string, t: string)
    requires !HasPlaceholder(s)
    ensures Count(s + "%s" + t) == 1 + Count(t)
  {
    if |s| == 0 {
      assert (s + "%s" + t)[2..] == t;
    } else {
      PlainPrefixStep(s, t);
      CountAfterPlainPrefix(s[1..], t);
    }
  }

  /**
   * A placeholder-free prefix is copied, and the first placeholder after it
   * takes the first argument.
   */
  lemma {:induction false} ReplaceAfterPlainPrefix(s: string, t: string, args: seq<string>)
    requires !HasPlaceholder(s)
    requires |args| >= 1 && Count(t) <= |args| - 1
    ensures Count(s + "%s" + t) == 1 + Count(t)
    ensures Replace(s + "%s" + t, args) == s + args[0] + Replace(t, args[1..])
  {
    CountAfterPlainPrefix(s, t);
    if |s| == 0 {
      ReplaceLeadingPlaceholder(t, args);
      assert s + "%s" + t == "%s" + t;
    } else {
      PlainTail(s);
      ReplaceAfterPlainPrefix(s[1..], t, args);
      ReplacePlainStep(s, t, args);
    }
  }

  /** A leading placeholder takes the first argument. */
  lemma ReplaceLeadingPlaceholder(t: string, args: seq<string>)
    requires |args| >= 1 && Count(t) <= |args| - 1
    ensures Count("%s" + t) == 1 + Count(t)
    ensures Replace("%s" + t, args) == args[0] + Replace(t, args[1..])
  {
    assert ("%s" + t)[2..] == t;
  }

  /** One step of the copy of a placeholder-free prefix. */
  lemma {:induction false} ReplacePlainStep(s: string, t: string, args: seq<string>)
    requires !HasPlaceholder(s) && |s| > 0
    requires |args| >= 1 && Count(t) <= |args| - 1
    requires Count(s + "%s" + t) == 1 + Count(t) && Count(s[1..] + "%s" + t) == 1 + Count(t)
    requires Replace(s[1..] + "%s" + t, args) == s[1..] + args[0] + Replace(t, args[1..])
    ensures Replace(s + "%s" + t, args) == s + args[0] + Replace(t, args[1..])
  {
    var text := s + "%s" + t;
    PlainPrefixStep(s, t);
    ReplaceCopiesFirst(text, args);
    assert text[0] == s[0];
    ConsAppend(s, args[0], Replace(t, args[1..]));
  }

  /** Putting the first character back in front of the rest of `u`, then `a` and `b`, rebuilds `u + a + b`. */
  lemma ConsAppend(u: string, a: string, b: string)
    requires |u| > 0
    ensures [u[0]] + (u[1..] + a + b) == u + a + b
  {
    assert [u[0]] + u[1..] == u;
  }

  /** A first character that does not start a placeholder is copied. */
  lemma ReplaceCopiesFirst(text: string, args: seq<string>)
    requires |text| >= 2 && !(text[0] == '%' && text[1] == 's')
    requires Count(text) <= |args|
    ensures Count(text[1..]) == Count(text)
    ensures Replace(text, args) == [text[0]] + Replace(text[1..], args)
  {
  }

  /**
   * The reference meaning of the templater: a template built from
   * placeholder-free parts has exactly one match per gap, and the k-th gap
   * receives `args[k]`, in order.
   */
  lemma {:induction false} ReplaceTemplate(segs: seq<string>, args: seq<string>)
    requires |segs| == |args| + 1 && PlainSegments(segs)
    ensures Count(Template(segs)) == |args|
    ensures Replace(Template(segs), args) == Fill(segs, args)
  {
    if |args| == 0 {
      ReplaceWithoutPlaceholder(segs[0], args);
    } else {
      assert PlainSegments(segs[1..]) by {
        forall k | 0 <= k < |segs[1..]| ensures !HasPlaceholder(segs[1..][k]) {
          assert segs[1..][k] == segs[k + 1];
        }
      }
      ReplaceTemplate(segs[1..], args[1..]);
      assert !HasPlaceholder(segs[0]);
      ReplaceAfterPlainPrefix(segs[0], Template(segs[1..]), args);
    }
  }

  /** A template with one placeholder puts its one argument between its two parts. */
  lemma OneSlot(pre: string, post: string, arg: string)
    requires !HasPlaceholder(pre) && !HasPlaceholder(post)
    ensures Count(Template([pre, post])) == 1
    ensures Replace(Template([pre, post]), [arg]) == pre + arg + post
  {
    var segs := [pre, post];
    assert segs[1..] == [post];
    ReplaceTemplate(segs, [arg]);
  }

  /** A template with three placeholders puts its arguments between its parts, in order. */
  lemma ThreeSlots(p0: string, p1: string, p2: string, p3: string, a: string, b: string, c: string)
    requires !HasPlaceholder(p0) && !HasPlaceholder(p1) && !HasPlaceholder(p2) && !HasPlaceholder(p3)
    ensures Count(Template([p0, p1, p2, p3])) == 3
    ensures Replace(Template([p0, p1, p2, p3]), [a, b, c]) == p0 + a + p1 + b + p2 + c + p3
  {
    var segs := [p0, p1, p2, p3];
    var args := [a, b, c];
    assert segs[1..] == [p1, p2, p3] && segs[1..][1..] == [p2, p3] && segs[1..][1..][1..] == [p3];
    assert args[1..] == [b, c] && args[1..][1..] == [c];
    ReplaceTemplate(segs, args);
    assert Fill([p3], []) == p3;
    assert Fill([p2, p3], [c]) == p2 + c + p3;
    assert Fill([p1, p2, p3], [b, c]) == p1 + b + (p2 + c + p3);
    assert Fill(segs, args) == p0 + a + (p1 + b + (p2 + c + p3));
  }

  /** The fixed parts of the template "%s is now item %s of %s". */
  const ExampleParts: seq<string> := ["", " is now item ", " of ", ""]

  /** The template of the example, spelled out. */
  lemma ExampleSpelled()
    ensures Template(ExampleParts) == "%s is now item %s of %s"
  {
  }

  /** "%s is now item %s of %s" reads its three arguments in order. */
  lemma ExampleText(a: string, b: string, c: string)
    ensures Count(Template(ExampleParts)) == 3
    ensures Replace(Template(ExampleParts), [a, b, c]) == a + " is now item " + b + " of " + c
  {
    assert !HasPlaceholder(" is now item ");
    assert !HasPlaceholder(" of ");
    ThreeSlots("", " is now item ", " of ", "", a, b, c);
  }

  /** Arguments beyond the placeholders are never read. */
  lemma {:induction false} ReplaceExtraArguments(text: string, args: seq<string>, extra: seq<string>)
    requires Count(text) <= |args|
    ensures Replace(text, args + extra) == Replace(text, args)
  {
    if |text| >= 2 {
      if text[0] == '%' && text[1] == 's' {
        assert (args + extra)[1..] == args[1..] + extra;
        ReplaceExtraArguments(text[2..], args[1..], extra);
      } else {
        ReplaceExtraArguments(text[1..], args, extra);
      }
    }
  }

  /** The decimal digit character for `d`. */
  function DigitChar(d: nat): (c: char)
    requires d < 10
    ensures '0' <= c <= '9' && c as int - '0' as int == d
  {
    ('0' as int + d) as char
  }

  /** True when every character of `s` is a decimal digit. */
  predicate AllDigits(s: string)
  {
    forall i :: 0 <= i < |s| ==> '0' <= s[i] <= '9'
  }

  /**
   * How JavaScript renders a non-negative integer that the templater
   * substitutes: its decimal digits, without leading zeros.
   */
  function NatToString(n: nat): (r: string)
    ensures |r| >= 1 && AllDigits(r)
    ensures |r| > 1 ==> r[0] != '0'
  {
    if n < 10 then [DigitChar(n)]
    else NatToString(n / 10) + [DigitChar(n % 10)]
  }

  /** The number a string of decimal digits denotes. */
  function DecimalValue(s: string): nat
    requires AllDigits(s)
  {
    if s == [] then 0
    else DecimalValue(s[..|s| - 1]) * 10 + (s[|s| - 1] as int - '0' as int)
  }

  /** Reading the rendered digits back yields the number. */
  lemma {:induction false} DecimalRoundTrip(n: nat)
    ensures DecimalValue(NatToString(n)) == n
  {
    var r := NatToString(n);
    if n >= 10 {
      DecimalRoundTrip(n / 10);
      assert r[..|r| - 1] == NatToString(n / 10);
    }
  }

  /** Different numbers are rendered differently. */
  lemma NatToStringInjective(m: nat, n: nat)
    requires NatToString(m) == NatToString(n)
    ensures m == n
  {
    DecimalRoundTrip(m);
    DecimalRoundTrip(n);
  }
}
