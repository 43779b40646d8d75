/**
The quote-aware scanners of ir/parse.go: cutting at a delimiter, splitting a list at top level,
and sweeping a column path into hops; with the quoting that each of them undoes.
*/
module Lexer {
  import opened Wrappers
  import opened Strings
  import opened Ir

  /** Inside a quoted span a backslash takes the next character with it. */
  datatype Quote = Plain | Quoted | Escaped

  function NextQuote(q: Quote, c: char): Quote {
    match q
    case Plain => if c == '"' then Quoted else Plain
    case Quoted => if c == '\\' then Escaped else if c == '"' then Plain else Quoted
    case Escaped => Quoted
  }

  // ----- cutIdentAware -----

  /** The position of the first unquoted `sep`, or the string's length. */
  function CutAt(s: string, sep: char, q: Quote): (i: nat)
    ensures i <= |s|
    ensures i < |s| ==> s[i] == sep
  {
    if s == [] || (q == Plain && s[0] == sep && sep != '"') then 0 else 1 + CutAt(s[1..], sep, NextQuote(q, s[0]))
  }

  method CutIdentAware(s: string, sep: char) returns (before: string, after: string, found: bool)
    requires sep != '"'
    ensures var i := CutAt(s, sep, Plain);
            && found == (i < |s|)
            && before == s[..i] && after == if found then s[i + 1..] else ""
  {
    var inQuote := false;
    var i := 0;
    while i < |s|
      invariant i <= |s|
      invariant CutAt(s, sep, Plain) == i + CutAt(s[i..], sep, if inQuote then Quoted else Plain)
    {
      var c := s[i];
      assert s[i..][1..] == s[i + 1..];
      if inQuote {
        if c == '\\' && i + 1 < |s| {
          assert s[i + 1..][1..] == s[i + 2..];
          i := i + 2;
          continue;
        }
        if c == '"' {
          inQuote := false;
        }
        assert c == '\\' ==> s[i + 1..] == [];
      } else if c == '"' {
        inQuote := true;
      } else if c == sep {
        return s[..i], s[i + 1..], true;
      }
      i := i + 1;
    }
    assert s[..i] == s;
    return s, "", false;
  }

  // ----- splitTopLevel -----

  datatype Scan = Scan(depth: int, quote: Quote)

  const TOP := Scan(0, Plain)

  function Next(st: Scan, c: char): Scan {
    if st.quote == Plain && (c == '(' || c == '{') then st.(depth := st.depth + 1)
    else if st.quote == Plain && (c == ')' || c == '}') then st.(depth := st.depth - 1)
    else st.(quote := NextQuote(st.quote, c))
  }

  /** The pieces between the commas at depth 0 outside quotes. */
  function Split(s: string, st: Scan): (r: seq<string>)
    ensures r != []
    ensures forall i :: 0 <= i < |r| ==> |r[i]| <= |s|
  {
    if s == [] then [[]]
    else if st == TOP && s[0] == ',' then [[]] + Split(s[1..], st)
    else Attach([s[0]], Split(s[1..], Next(st, s[0])))
  }

  function At(depth: int, inQuote: bool): Scan { Scan(depth, if inQuote then Quoted else Plain) }

  /** Reading one character that is not a split point extends the piece at hand. */
  lemma SplitStep(s: string, start: nat, i: nat, st: Scan)
    requires start <= i < |s| && !(st == TOP && s[i] == ',')
    ensures Attach(s[start..i], Split(s[i..], st)) == Attach(s[start..i + 1], Split(s[i + 1..], Next(st, s[i])))
  {
    var t := s[i..];
    assert t[0] == s[i] && t[1..] == s[i + 1..];
    assert Split(t, st) == Attach([t[0]], Split(t[1..], Next(st, t[0])));
    assert s[start..i] + [s[i]] == s[start..i + 1];
    AttachTwice(s[start..i], [s[i]], Split(s[i + 1..], Next(st, s[i])));
  }

  lemma AttachEmpty(pre: string, tail: seq<string>)
    ensures Attach(pre, [[]] + tail) == [pre] + tail
  {
    var all: seq<string> := [[]] + tail;
    assert all[1..] == tail && pre + all[0] == pre;
  }

  lemma SplitComma(s: string, start: nat, i: nat)
    requires start <= i < |s| && s[i] == ','
    ensures Attach(s[start..i], Split(s[i..], TOP)) == [s[start..i]] + Attach(s[i + 1..i + 1], Split(s[i + 1..], TOP))
  {
    var tail := Split(s[i + 1..], TOP);
    assert s[i..][1..] == s[i + 1..];
    AttachEmpty(s[start..i], tail);
    assert s[i + 1..i + 1] == [] && [] + tail[0] == tail[0] && [tail[0]] + tail[1..] == tail;
  }

  /** The same pieces by position: `start` is where the piece at hand began. */
  function SplitFrom(s: string, start: nat, i: nat, st: Scan): seq<string>
    requires start <= i <= |s|
    decreases |s| - i
  {
    if i == |s| then [s[start..]]
    else if st == TOP && s[i] == ',' then [s[start..i]] + SplitFrom(s, i + 1, i + 1, st)
    else SplitFrom(s, start, i + 1, Next(st, s[i]))
  }

  lemma {:induction false} SplitFromIsSplit(s: string, start: nat, i: nat, st: Scan)
    requires start <= i <= |s|
    ensures SplitFrom(s, start, i, st) == Attach(s[start..i], Split(s[i..], st))
    decreases |s| - i
  {
    if i == |s| {
      assert s[i..] == [] && s[start..i] == s[start..] && s[start..] + [] == s[start..];
    } else if st == TOP && s[i] == ',' {
      SplitComma(s, start, i);
      SplitFromIsSplit(s, i + 1, i + 1, st);
    } else {
      SplitStep(s, start, i, st);
      SplitFromIsSplit(s, start, i + 1, Next(st, s[i]));
    }
  }

  lemma SplitFromStart(s: string)
    ensures SplitFrom(s, 0, 0, TOP) == Split(s, TOP)
  {
    SplitFromIsSplit(s, 0, 0, TOP);
    var all := Split(s, TOP);
    assert s[0..0] == [] && s[0..] == s && [] + all[0] == all[0] && all == Attach([], all);
  }

  method SplitTopLevel(s: string) returns (out: seq<string>)
    ensures out == Split(s, TOP)
  {
    out := [];
    var depth, inQuote, start, i := 0, false, 0, 0;
    SplitFromStart(s);
    ghost var all := Split(s, TOP);
    while i < |s|
      invariant start <= i <= |s|
      invariant all == out + SplitFrom(s, start, i, At(depth, inQuote))
    {
      var c := s[i];
      if inQuote {
        if c == '\\' && i + 1 < |s| {
          i := i + 2;
          continue;
        }
        if c == '"' {
          inQuote := false;
        }
      } else if c == ',' && depth == 0 {
        out := out + [s[start..i]];
        start := i + 1;
      } else if c == '"' {
        inQuote := true;
      } else if c == '(' || c == '{' {
        depth := depth + 1;
      } else if c == ')' || c == '}' {
        depth := depth - 1;
      }
      i := i + 1;
    }
    out := out + [s[start..]];
  }

  /**
  The state after text that never meets a comma at depth 0 and never closes what it did not open;
  None when it does either.
  */
  function Run(s: string, st: Scan): Option<Scan> {
    if s == [] then Some(st)
    else if st == TOP && (s[0] == ',' || s[0] == ')' || s[0] == '}') then None
    else Run(s[1..], Next(st, s[0]))
  }

  /** Text that a split leaves whole, and that leaves the scanner where it found it. */
  predicate Solid(s: string) { Run(s, TOP) == Some(TOP) }

  lemma {:induction false} RunAppend(a: string, b: string, st: Scan)
    ensures Run(a + b, st) == if Run(a, st).None? then None else Run(b, Run(a, st).value)
  {
    if a == [] {
      assert a + b == b;
    } else {
      assert (a + b)[1..] == a[1..] + b;
      RunAppend(a[1..], b, Next(st, a[0]));
    }
  }

  /** Deeper inside, solid text is still solid. */
  lemma {:induction false} RunDeeper(s: string, st: Scan, k: nat)
    requires Run(s, st).Some? && st.depth >= 0
    ensures Run(s, st.(depth := st.depth + k)) == Some(Run(s, st).value.(depth := Run(s, st).value.depth + k))
    ensures Run(s, st).value.depth >= 0
  {
    if s != [] {
      var n := Next(st, s[0]);
      if n.depth >= 0 {
        RunDeeper(s[1..], n, k);
        assert Next(st.(depth := st.depth + k), s[0]) == n.(depth := n.depth + k);
      }
    }
  }

  lemma {:induction false} SplitSolid(a: string, st: Scan, b: string)
    requires Run(a, st) == Some(TOP)
    ensures Split(a, st) == [a]
    ensures Split(a + "," + b, st) == [a] + Split(b, TOP)
  {
    if a == [] {
      assert a + "," + b == "," + b;
    } else {
      assert (a + "," + b)[1..] == a[1..] + "," + b;
      SplitSolid(a[1..], Next(st, a[0]), b);
      assert [a[0]] + a[1..] == a;
      assert Attach([a[0]], [a[1..]] + Split(b, TOP)) == [a] + Split(b, TOP);
    }
  }

  /** Splitting undoes joining. */
  lemma {:induction false} SplitJoin(parts: seq<string>)
    requires parts != [] && forall i :: 0 <= i < |parts| ==> Solid(parts[i])
    ensures Split(Join(parts), TOP) == parts
  {
    if |parts| == 1 {
      SplitSolid(parts[0], TOP, "");
    } else {
      SplitSolid(parts[0], TOP, Join(parts[1..]));
      SplitJoin(parts[1..]);
    }
  }

  /** A joined list of solid pieces, one level down, comes back to that level. */
  lemma {:induction false} RunJoin(parts: seq<string>, depth: nat)
    requires depth > 0 && forall i :: 0 <= i < |parts| ==> Solid(parts[i])
    ensures Run(Join(parts), Scan(depth, Plain)) == Some(Scan(depth, Plain))
  {
    if parts != [] {
      RunDeeper(parts[0], TOP, depth);
      if |parts| > 1 {
        RunJoin(parts[1..], depth);
        RunAppend(parts[0], "," + Join(parts[1..]), Scan(depth, Plain));
        assert parts[0] + "," + Join(parts[1..]) == parts[0] + ("," + Join(parts[1..]));
        assert ("," + Join(parts[1..]))[1..] == Join(parts[1..]);
      }
    }
  }

  lemma RunHead(c: char, tail: string, st: Scan)
    requires st == TOP ==> c != ',' && c != ')' && c != '}'
    ensures Run([c] + tail, st) == Run(tail, Next(st, c))
  {
    assert ([c] + tail)[1..] == tail;
  }

  lemma BodySolid(open: char, body: string, close: char)
    requires (open == '(' || open == '{') && (close == ')' || close == '}')
    requires Run(body, Scan(1, Plain)) == Some(Scan(1, Plain))
    ensures Solid([open] + body + [close])
  {
    RunAppend(body, [close], Scan(1, Plain));
    assert [close] == [close] + [];
    RunHead(close, [], Scan(1, Plain));
    RunHead(open, body + [close], TOP);
    assert [open] + body + [close] == [open] + (body + [close]);
  }

  /** A bracketed list of solid pieces is solid. */
  lemma BracketedSolid(open: char, parts: seq<string>, close: char)
    requires (open == '(' || open == '{') && (close == ')' || close == '}')
    requires forall i :: 0 <= i < |parts| ==> Solid(parts[i])
    ensures Solid([open] + Join(parts) + [close])
  {
    RunJoin(parts, 1);
    BodySolid(open, Join(parts), close);
  }

  // ----- quoted list elements -----

  function EscapeChars(s: string): string {
    if s == [] then []
    else (if s[0] == '"' || s[0] == '\\' then ['\\', s[0]] else [s[0]]) + EscapeChars(s[1..])
  }

  function QuoteElement(s: string): string { "\"" + EscapeChars(s) + "\"" }

  function Unescape(s: string): string {
    if s == [] then []
    else if s[0] == '\\' && |s| > 1 then [s[1]] + Unescape(s[2..])
    else [s[0]] + Unescape(s[1..])
  }

  /** The text before position `i` has been unescaped into `b`. */
  ghost predicate UnescapedTo(s: string, b: string, i: nat) { i <= |s| && Unescape(s) == b + Unescape(s[i..]) }

  lemma UnescapedStep(s: string, b: string, i: nat)
    requires UnescapedTo(s, b, i) && i < |s|
    ensures if s[i] == '\\' && i + 1 < |s| then UnescapedTo(s, b + [s[i + 1]], i + 2)
            else UnescapedTo(s, b + [s[i]], i + 1)
  {
    var t := s[i..];
    assert t[1..] == s[i + 1..];
    if s[i] == '\\' && i + 1 < |s| {
      assert t[2..] == s[i + 2..];
    }
  }

  method UnescapeQuoted(s: string) returns (b: string)
    ensures b == Unescape(s)
  {
    b := "";
    var i := 0;
    assert s[0..] == s;
    while i < |s|
      invariant UnescapedTo(s, b, i)
    {
      UnescapedStep(s, b, i);
      if s[i] == '\\' && i + 1 < |s| {
        i := i + 1;
      }
      b := b + [s[i]];
      i := i + 1;
    }
    assert s[i..] == [];
  }

  lemma {:induction false} UnescapeUndoesEscape(s: string)
    ensures Unescape(EscapeChars(s)) == s
  {
    if s != [] {
      UnescapeUndoesEscape(s[1..]);
      var e, rest := EscapeChars(s), EscapeChars(s[1..]);
      if s[0] == '"' || s[0] == '\\' {
        assert e == ['\\', s[0]] + rest && e[2..] == rest;
      } else {
        assert e == [s[0]] + rest && e[1..] == rest;
      }
      assert [s[0]] + s[1..] == s;
    }
  }

  /** How one character of an escaped string is written. */
  lemma EscapedHead(s: string, after: string)
    requires s != []
    ensures var e, tail := EscapeChars(s) + after, EscapeChars(s[1..]) + after;
            e == (if s[0] == '"' || s[0] == '\\' then ['\\'] + ([s[0]] + tail) else [s[0]] + tail)
  {
  }

  lemma {:induction false} RunEscaped(s: string, depth: int, after: string)
    ensures Run(EscapeChars(s) + after, Scan(depth, Quoted)) == Run(after, Scan(depth, Quoted))
  {
    if s == [] {
      assert EscapeChars(s) + after == after;
    } else {
      RunEscaped(s[1..], depth, after);
      EscapedHead(s, after);
      var tail := EscapeChars(s[1..]) + after;
      if s[0] == '"' || s[0] == '\\' {
        RunHead('\\', [s[0]] + tail, Scan(depth, Quoted));
        RunHead(s[0], tail, Scan(depth, Escaped));
      } else {
        RunHead(s[0], tail, Scan(depth, Quoted));
      }
    }
  }

  lemma QuotedElementSolid(s: string)
    ensures Solid(QuoteElement(s))
  {
    RunEscaped(s, 0, "\"");
    var e := QuoteElement(s);
    assert e[0] == '"' && e[1..] == EscapeChars(s) + "\"";
    assert "\""[1..] == [];
  }

  // ----- parseInList and parseBraceList -----

  /** One element of a list: trimmed, and unescaped when it is fully quoted. */
  function Element(p: string): string {
    var t := Trim(p);
    if |t| >= 2 && t[0] == '"' && t[|t| - 1] == '"' then Unescape(t[1..|t| - 1]) else t
  }

  function Elements(parts: seq<string>): (r: seq<string>)
    ensures |r| == |parts|
  {
    seq(|parts|, i requires 0 <= i < |parts| => Element(parts[i]))
  }

  datatype ListError = NotBracketed | NoValue

  /** A bracketed, comma-separated, non-empty list. */
  function ListOf(raw: string, open: char, close: char): Result<seq<string>, ListError> {
    var t := Trim(raw);
    if |t| < 2 || t[0] != open || t[|t| - 1] != close then Err(NotBracketed)
    else if |t| == 2 then Err(NoValue)
    else Ok(Elements(Split(t[1..|t| - 1], TOP)))
  }

  method ParseElement(p: string) returns (e: string)
    ensures e == Element(p)
  {
    e := Trim(p);
    if |e| >= 2 && e[0] == '"' && e[|e| - 1] == '"' {
      e := UnescapeQuoted(e[1..|e| - 1]);
    }
  }

  method ParseElements(parts: seq<string>) returns (out: seq<string>)
    ensures out == Elements(parts)
  {
    out := [];
    for i := 0 to |parts|
      invariant |out| == i && forall k :: 0 <= k < i ==> out[k] == Element(parts[k])
    {
      var e := ParseElement(parts[i]);
      out := out + [e];
    }
  }

  method ParseList(raw: string, open: char, close: char) returns (r: Result<seq<string>, ListError>)
    ensures r == ListOf(raw, open, close)
  {
    var t := Trim(raw);
    if |t| < 2 || t[0] != open || t[|t| - 1] != close {
      return Err(NotBracketed);
    }
    var inner := t[1..|t| - 1];
    if inner == "" {
      return Err(NoValue);
    }
    var parts := SplitTopLevel(inner);
    var out := ParseElements(parts);
    return Ok(out);
  }

  /** Which names and list elements a client writes without quotes, wherever that can be done. */
  type Style = string -> bool

  /** An element that can stand in a list as it is. */
  predicate BareElement(s: string) {
    s != [] && Tight(s) && Solid(s) && !(|s| >= 2 && s[0] == '"' && s[|s| - 1] == '"')
  }

  function SpellElement(style: Style, s: string): string {
    if style(s) && BareElement(s) then s else QuoteElement(s)
  }

  function SpellAll(style: Style, list: seq<string>): (r: seq<string>)
    ensures |r| == |list|
  {
    seq(|list|, i requires 0 <= i < |list| => SpellElement(style, list[i]))
  }

  function PrintList(style: Style, list: seq<string>, open: char, close: char): string {
    [open] + Join(SpellAll(style, list)) + [close]
  }

  /** An element is read as it was meant, bare or quoted, with any white space around it. */
  lemma ElementReads(style: Style, s: string, pre: string, post: string)
    requires Blank(pre) && Blank(post)
    ensures Element(pre + SpellElement(style, s) + post) == s
  {
    var e := SpellElement(style, s);
    TrimTakesBlanks(pre, e, post);
    if e == QuoteElement(s) {
      assert e[1..|e| - 1] == EscapeChars(s);
      UnescapeUndoesEscape(s);
    }
  }

  lemma SpelledSolid(style: Style, s: string)
    ensures Solid(SpellElement(style, s)) && SpellElement(style, s) != []
  {
    QuotedElementSolid(s);
  }

  /** Joined pieces are not empty when the first is not. */
  lemma JoinNotEmpty(parts: seq<string>)
    requires parts != [] && parts[0] != []
    ensures Join(parts) != []
  {
  }

  lemma SpelledRead(style: Style, list: seq<string>)
    ensures Elements(SpellAll(style, list)) == list
  {
    var parts := SpellAll(style, list);
    forall i | 0 <= i < |list| ensures Elements(parts)[i] == list[i] {
      ElementReads(style, list[i], "", "");
      assert "" + parts[i] + "" == parts[i];
    }
  }

  lemma BracketsOff(open: char, inner: string, close: char)
    requires !Space(open) && !Space(close)
    ensures var t := [open] + inner + [close];
            Trim(t) == t && |t| == |inner| + 2 && t[0] == open && t[|t| - 1] == close && t[1..|t| - 1] == inner
  {
    TrimKeepsTight([open] + inner + [close]);
  }

  lemma BracketedText(open: char, inner: string, close: char)
    requires !Space(open) && !Space(close) && inner != []
    ensures ListOf([open] + inner + [close], open, close) == Ok(Elements(Split(inner, TOP)))
  {
    BracketsOff(open, inner, close);
  }

  /** A bracketed list of solid pieces is read piece by piece. */
  lemma ListReads(parts: seq<string>, open: char, close: char)
    requires parts != [] && (open == '(' || open == '{') && (close == ')' || close == '}')
    requires parts[0] != [] && forall i :: 0 <= i < |parts| ==> Solid(parts[i])
    ensures ListOf([open] + Join(parts) + [close], open, close) == Ok(Elements(parts))
  {
    JoinNotEmpty(parts);
    SplitJoin(parts);
    BracketedText(open, Join(parts), close);
  }

  /** Spelling any strings, bare or quoted and escaped, and joining them, then parsing, returns them. */
  lemma ListRoundTrip(style: Style, list: seq<string>, open: char, close: char)
    requires list != [] && (open == '(' || open == '{') && (close == ')' || close == '}')
    ensures ListOf(PrintList(style, list, open, close), open, close) == Ok(list)
    ensures Solid(PrintList(style, list, open, close))
  {
    var parts := SpellAll(style, list);
    forall i | 0 <= i < |parts| ensures Solid(parts[i]) && parts[i] != [] { SpelledSolid(style, list[i]); }
    ListReads(parts, open, close);
    SpelledRead(style, list);
    BracketedSolid(open, parts, close);
  }

  /** A text is a list exactly when, white space around it aside, it is bracketed and not empty inside. */
  lemma ListAccepts(raw: string, open: char, close: char)
    ensures ListOf(raw, open, close).Ok? <==>
            exists inner: string :: inner != "" && Trim(raw) == [open] + inner + [close]
    ensures ListOf(raw, open, close).Ok? ==> ListOf(raw, open, close).value != []
  {
    var t := Trim(raw);
    if |t| > 2 && t[0] == open && t[|t| - 1] == close {
      assert t == [open] + t[1..|t| - 1] + [close];
    }
  }
}
