/** The string operations the parsers use, on strings of code points. */
module Strings {

  /** unicode.IsSpace. */
  predicate Space(c: char) {
    || '\t' <= c <= '\r' || c == ' ' || c == '\U{0085}' || c == '\U{00A0}' || c == '\U{1680}'
    || '\U{2000}' <= c <= '\U{200a}' || c == '\U{2028}' || c == '\U{2029}' || c == '\U{202f}'
    || c == '\U{205f}' || c == '\U{3000}'
  }

  function TrimLeft(s: string): (r: string)
    ensures |r| <= |s|
  {
    if s != [] && Space(s[0]) then TrimLeft(s[1..]) else s
  }

  function TrimRight(s: string): (r: string)
    ensures |r| <= |s|
  {
    if s != [] && Space(s[|s| - 1]) then TrimRight(s[..|s| - 1]) else s
  }

  function Trim(s: string): (r: string)
    ensures |r| <= |s|
  {
    TrimRight(TrimLeft(s))
  }

  lemma TrimKeepsTight(s: string)
    requires Tight(s)
    ensures Trim(s) == s
  {
  }

  /** Text that trimming leaves alone. */
  predicate Tight(s: string) { s == [] || (!Space(s[0]) && !Space(s[|s| - 1])) }

  predicate Blank(s: string) { forall i :: 0 <= i < |s| ==> Space(s[i]) }

  lemma {:induction false} TrimLeftDrops(pre: string, t: string)
    requires Blank(pre) && t != [] && !Space(t[0])
    ensures TrimLeft(pre + t) == t
  {
    if pre == [] {
      assert pre + t == t;
    } else {
      assert (pre + t)[1..] == pre[1..] + t;
      TrimLeftDrops(pre[1..], t);
    }
  }

  lemma {:induction false} TrimRightDrops(t: string, post: string)
    requires Blank(post) && t != [] && !Space(t[|t| - 1])
    ensures TrimRight(t + post) == t
  {
    if post == [] {
      assert t + post == t;
    } else {
      assert (t + post)[..|t + post| - 1] == t + post[..|post| - 1];
      TrimRightDrops(t, post[..|post| - 1]);
    }
  }

  /** Trimming takes the white space around a text and nothing of the text. */
  lemma TrimTakesBlanks(pre: string, t: string, post: string)
    requires Blank(pre) && Blank(post) && t != [] && Tight(t)
    ensures Trim(pre + t + post) == t
  {
    assert pre + t + post == pre + (t + post);
    TrimLeftDrops(pre, t + post);
    TrimRightDrops(t, post);
  }

  /** The position of the first `c`, or the string's length. */
  function Index(s: string, c: char): (i: nat)
    ensures i <= |s|
    ensures i < |s| ==> s[i] == c
  {
    if s == [] || s[0] == c then 0 else 1 + Index(s[1..], c)
  }

  lemma {:induction false} IndexAfter(a: string, c: char, b: string)
    requires c !in a
    ensures Index(a + [c] + b, c) == |a|
  {
    if a == [] {
      assert a + [c] + b == [c] + b;
    } else {
      assert (a + [c] + b)[1..] == a[1..] + [c] + b;
      IndexAfter(a[1..], c, b);
    }
  }

  lemma {:induction false} IndexAbsent(a: string, c: char)
    requires c !in a
    ensures Index(a, c) == |a|
  {
    if a != [] {
      IndexAbsent(a[1..], c);
    }
  }

  lemma {:induction false} IndexFound(s: string, c: char)
    requires c in s
    ensures Index(s, c) < |s|
  {
    if s[0] != c {
      IndexFound(s[1..], c);
    }
  }

  /** Prepends text to the first of a list of pieces. */
  function Attach(pre: string, parts: seq<string>): (r: seq<string>)
    requires parts != []
    ensures |r| == |parts|
  {
    [pre + parts[0]] + parts[1..]
  }

  lemma AttachTwice(a: string, b: string, parts: seq<string>)
    requires parts != []
    ensures Attach(a, Attach(b, parts)) == Attach(a + b, parts)
  {
    assert a + (b + parts[0]) == (a + b) + parts[0];
  }

  function Join(parts: seq<string>): string {
    if parts == [] then ""
    else if |parts| == 1 then parts[0]
    else parts[0] + "," + Join(parts[1..])
  }

  /** Some string is not in a list: one longer than all of them. */
  lemma FreshText(texts: seq<string>) returns (x: string)
    ensures x !in texts
  {
    var n: nat := 0;
    for i := 0 to |texts|
      invariant forall j :: 0 <= j < i ==> |texts[j]| <= n
    {
      n := if |texts[i]| > n then |texts[i]| else n;
    }
    x := seq(n + 1, _ => 'a');
  }
}
