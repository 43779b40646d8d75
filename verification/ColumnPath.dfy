/** Column references with JSON arrows and quoted identifiers (ir/parse.go, parsePath and unquoteIdent). */
module ColumnPath {
  import opened Wrappers
  import opened Strings
  import opened Ir
  import opened Lexer

  // ----- quoted identifiers -----

  function Double(s: string): string {
    if s == [] then [] else (if s[0] == '"' then ['"', '"'] else [s[0]]) + Double(s[1..])
  }

  /** The SQL spelling of an identifier: quoted, with interior quotes doubled. */
  function QuoteIdent(s: string): string { "\"" + Double(s) + "\"" }

  function Halve(s: string): string {
    if s == [] then []
    else if |s| > 1 && s[0] == '"' && s[1] == '"' then "\"" + Halve(s[2..])
    else [s[0]] + Halve(s[1..])
  }

  function UnquoteIdent(s: string): string {
    if |s| >= 2 && s[0] == '"' && s[|s| - 1] == '"' then Halve(s[1..|s| - 1]) else s
  }

  lemma {:induction false} HalveUndoesDouble(s: string)
    ensures Halve(Double(s)) == s
  {
    if s != [] {
      HalveUndoesDouble(s[1..]);
      var d, rest := Double(s), Double(s[1..]);
      if s[0] == '"' {
        assert d == "\"\"" + rest && d[2..] == rest;
      } else {
        assert d == [s[0]] + rest && d[1..] == rest;
      }
      assert [s[0]] + s[1..] == s;
    }
  }

  lemma UnquoteUndoesQuote(s: string)
    ensures UnquoteIdent(QuoteIdent(s)) == s
  {
    var q := QuoteIdent(s);
    assert q[1..|q| - 1] == Double(s);
    HalveUndoesDouble(s);
  }

  /** One character of a quoted, backslash-free identifier, as it is written. */
  lemma DoubleHead(s: string, after: string)
    requires s != []
    ensures var tail := Double(s[1..]) + after; var all := Double(s) + after;
            if s[0] == '"' then |all| >= 2 && all[0] == '"' && all[1] == '"' && all[1..][1..] == tail
            else |all| >= 1 && all[0] == s[0] && all[1..] == tail
  {
    if s[0] == '"' {
      TwoHeads('"', '"', Double(s[1..]), after);
    } else {
      OneHead(s[0], Double(s[1..]), after);
    }
  }

  lemma OneHead(c: char, tail: string, after: string)
    ensures var all := [c] + tail + after; all[0] == c && all[1..] == tail + after
  {
  }

  lemma TwoHeads(c: char, d: char, tail: string, after: string)
    ensures var all := [c, d] + tail + after; all[0] == c && all[1] == d && all[1..][1..] == tail + after
  {
    var all := [c, d] + tail + after;
    assert all[1..][1..] == all[2..];
  }

  lemma {:induction false} RunQuoted(s: string, depth: int, after: string)
    requires '\\' !in s
    ensures Run(Double(s) + "\"" + after, Scan(depth, Quoted)) == Run(after, Scan(depth, Plain))
  {
    var all := Double(s) + ("\"" + after);
    assert Double(s) + "\"" + after == all;
    if s == [] {
      assert all[0] == '"' && all[1..] == after;
    } else {
      RunQuoted(s[1..], depth, after);
      DoubleHead(s, "\"" + after);
      assert Double(s[1..]) + "\"" + after == Double(s[1..]) + ("\"" + after);
    }
  }

  /** A quoted identifier hides whatever is inside it from the splitter. */
  lemma RunQuotedIdent(s: string, depth: int, after: string)
    requires '\\' !in s
    ensures Run(QuoteIdent(s) + after, Scan(depth, Plain)) == Run(after, Scan(depth, Plain))
  {
    var all := QuoteIdent(s) + after;
    assert all[0] == '"' && all[1..] == Double(s) + "\"" + after;
    RunQuoted(s, depth, after);
  }

  lemma {:induction false} CutQuoted(s: string, sep: char, after: string)
    requires '\\' !in s && sep != '"'
    ensures CutAt(Double(s) + "\"" + after, sep, Quoted) == |Double(s)| + 1 + CutAt(after, sep, Plain)
  {
    var all := Double(s) + ("\"" + after);
    assert Double(s) + "\"" + after == all;
    if s == [] {
      assert all[0] == '"' && all[1..] == after;
    } else {
      CutQuoted(s[1..], sep, after);
      DoubleHead(s, "\"" + after);
      assert Double(s[1..]) + "\"" + after == Double(s[1..]) + ("\"" + after);
    }
  }

  lemma CutQuotedIdent(s: string, sep: char, after: string)
    requires '\\' !in s && sep != '"'
    ensures CutAt(QuoteIdent(s) + after, sep, Plain) == |QuoteIdent(s)| + CutAt(after, sep, Plain)
  {
    var all := QuoteIdent(s) + after;
    assert all[0] == '"' && all[1..] == Double(s) + "\"" + after;
    CutQuoted(s, sep, after);
  }

  // ----- names without quotes -----

  /** A name in which none of the characters that the scanners look for occurs. */
  predicate Neutral(s: string) {
    forall i :: 0 <= i < |s| ==> s[i] !in {'"', '.', ',', '(', ')', '{', '}'}
  }

  lemma {:induction false} CutNeutral(s: string, after: string)
    requires Neutral(s)
    ensures CutAt(s + after, '.', Plain) == |s| + CutAt(after, '.', Plain)
  {
    if s == [] {
      assert s + after == after;
    } else {
      assert (s + after)[1..] == s[1..] + after;
      CutNeutral(s[1..], after);
    }
  }

  lemma {:induction false} RunNeutral(s: string, after: string)
    requires Neutral(s)
    ensures Run(s + after, TOP) == Run(after, TOP)
  {
    if s == [] {
      assert s + after == after;
    } else {
      assert (s + after)[1..] == s[1..] + after && s[0] !in {'"', '.', ',', '(', ')', '{', '}'};
      RunNeutral(s[1..], after);
    }
  }

  // ----- the arrow sweep -----

  function ArrowWidth(raw: string): (w: nat)
    ensures w <= |raw| && w <= 3
  {
    if |raw| >= 2 && raw[0] == '-' && raw[1] == '>' then (if |raw| > 2 && raw[2] == '>' then 3 else 2) else 0
  }

  function ArrowKind(w: nat): JsonStep { if w == 3 then Arrow2 else Arrow }

  /** The hops between unquoted arrows, and the kind of the last arrow. */
  function Sweep(raw: string, q: Quote): (r: (seq<string>, JsonStep))
    ensures r.0 != []
  {
    if raw == [] then ([[]], NoStep)
    else
      var w := if q == Plain then ArrowWidth(raw) else 0;
      if w > 0 then
        var (hops, last) := Sweep(raw[w..], Plain);
        ([[]] + hops, if last == NoStep then ArrowKind(w) else last)
      else
        var (hops, last) := Sweep(raw[1..], NextQuote(q, raw[0]));
        (Attach([raw[0]], hops), last)
  }

  datatype Error = EmptyReference | EmptyHop

  function UnquoteAll(hops: seq<string>): (r: seq<string>)
    ensures |r| == |hops|
  {
    seq(|hops|, i requires 0 <= i < |hops| => UnquoteIdent(hops[i]))
  }

  function PathOf(raw: string): Result<(seq<string>, JsonStep), Error> {
    if raw == "" then Err(EmptyReference)
    else
      var (hops, last) := Sweep(raw, Plain);
      var names := UnquoteAll(hops);
      if "" in names then Err(EmptyHop)
      else Ok((names, if |names| == 1 then NoStep else last))
  }

  /** What the loop over `raw` knows at position `i` with the current hop begun at `start`. */
  ghost predicate SweptTo(raw: string, hops: seq<string>, last: JsonStep, start: nat, i: nat, q: Quote) {
    && start <= i <= |raw|
    && var (h, l) := Sweep(raw[i..], q);
       Sweep(raw, Plain) == (hops + Attach(raw[start..i], h), if l == NoStep then last else l)
  }

  lemma SweptStart(raw: string)
    ensures SweptTo(raw, [], NoStep, 0, 0, Plain)
  {
    var (h, l) := Sweep(raw, Plain);
    assert raw[0..] == raw && raw[0..0] == [];
    assert [] + h[0] == h[0] && [h[0]] + h[1..] == h;
    assert [] + Attach([], h) == h;
  }

  lemma SweptStep(raw: string, hops: seq<string>, last: JsonStep, start: nat, i: nat, q: Quote)
    requires SweptTo(raw, hops, last, start, i, q) && i < |raw| && (q == Plain ==> ArrowWidth(raw[i..]) == 0)
    ensures SweptTo(raw, hops, last, start, i + 1, NextQuote(q, raw[i]))
  {
    assert raw[i..][1..] == raw[i + 1..];
    assert raw[start..i] + [raw[i]] == raw[start..i + 1];
    AttachTwice(raw[start..i], [raw[i]], Sweep(raw[i + 1..], NextQuote(q, raw[i])).0);
  }

  lemma SweptArrow(raw: string, hops: seq<string>, last: JsonStep, start: nat, i: nat)
    requires SweptTo(raw, hops, last, start, i, Plain) && i < |raw| && ArrowWidth(raw[i..]) > 0
    ensures var w := ArrowWidth(raw[i..]);
            SweptTo(raw, hops + [raw[start..i]], ArrowKind(w), i + w, i + w, Plain)
  {
    var w := ArrowWidth(raw[i..]);
    assert raw[i..][w..] == raw[i + w..];
    var h := Sweep(raw[i + w..], Plain).0;
    AttachEmpty(raw[start..i], h);
    assert raw[i + w..i + w] == [] && [] + h[0] == h[0] && [h[0]] + h[1..] == h;
    assert hops + ([raw[start..i]] + h) == (hops + [raw[start..i]]) + h;
  }

  lemma NothingLeft(raw: string, start: nat, q: Quote)
    requires start <= |raw|
    ensures Sweep(raw[|raw|..], q) == ([[]], NoStep)
    ensures Attach(raw[start..|raw|], [[]]) == [raw[start..]]
  {
    assert raw[|raw|..] == [];
    assert raw[start..|raw|] == raw[start..] && raw[start..] + [] == raw[start..];
  }

  /** At the end of the text the quote state no longer matters. */
  lemma SweptEnd(raw: string, hops: seq<string>, last: JsonStep, start: nat, q: Quote, q': Quote)
    requires SweptTo(raw, hops, last, start, |raw|, q)
    ensures SweptTo(raw, hops, last, start, |raw|, q')
    ensures Sweep(raw, Plain) == (hops + [raw[start..]], last)
  {
    NothingLeft(raw, start, q);
    NothingLeft(raw, start, q');
  }

  /** One turn of the loop inside quotes; a final backslash escapes nothing. */
  lemma SweptInQuote(raw: string, hops: seq<string>, last: JsonStep, start: nat, i: nat)
    requires SweptTo(raw, hops, last, start, i, Quoted) && i < |raw|
    ensures if raw[i] == '\\' && i + 1 < |raw| then SweptTo(raw, hops, last, start, i + 2, Quoted)
            else SweptTo(raw, hops, last, start, i + 1, if raw[i] == '"' then Plain else Quoted)
  {
    SweptStep(raw, hops, last, start, i, Quoted);
    if raw[i] == '\\' {
      if i + 1 < |raw| {
        SweptStep(raw, hops, last, start, i + 1, Escaped);
      } else {
        SweptEnd(raw, hops, last, start, Escaped, Quoted);
      }
    }
  }

  /** The source's index loop finds the same hops. */
  method SweepHops(raw: string) returns (hops: seq<string>, last: JsonStep)
    ensures (hops, last) == Sweep(raw, Plain)
  {
    hops, last := [], NoStep;
    var start, inQuote, i := 0, false, 0;
    SweptStart(raw);
    while i < |raw|
      invariant i <= |raw| && SweptTo(raw, hops, last, start, i, if inQuote then Quoted else Plain)
    {
      var c := raw[i];
      if inQuote {
        SweptInQuote(raw, hops, last, start, i);
        if c == '\\' && i + 1 < |raw| {
          i := i + 2;
          continue;
        }
        if c == '"' {
          inQuote := false;
        }
        i := i + 1;
      } else if c == '-' && i + 1 < |raw| && raw[i + 1] == '>' {
        SweptArrow(raw, hops, last, start, i);
        hops := hops + [raw[start..i]];
        if i + 2 < |raw| && raw[i + 2] == '>' {
          last := Arrow2;
          i := i + 3;
        } else {
          last := Arrow;
          i := i + 2;
        }
        start := i;
      } else {
        SweptStep(raw, hops, last, start, i, Plain);
        if c == '"' {
          inQuote := true;
        }
        i := i + 1;
      }
    }
    SweptEnd(raw, hops, last, start, if inQuote then Quoted else Plain, Plain);
    hops := hops + [raw[start..]];
  }

  method ParsePath(raw: string) returns (r: Result<(seq<string>, JsonStep), Error>)
    ensures r == PathOf(raw)
  {
    if raw == "" {
      return Err(EmptyReference);
    }
    var hops, last := SweepHops(raw);
    var names: seq<string> := [];
    for j := 0 to |hops|
      invariant names == UnquoteAll(hops)[..j]
    {
      names := names + [UnquoteIdent(hops[j])];
    }
    assert UnquoteAll(hops)[..|hops|] == UnquoteAll(hops);
    if "" in names {
      return Err(EmptyHop);
    }
    return Ok((names, if |names| == 1 then NoStep else last));
  }

  // ----- printing -----

  predicate ArrowFree(s: string) { forall i :: 0 <= i < |s| - 1 && s[i] == '-' ==> s[i + 1] != '>' }

  /** A hop that is its own spelling: no quote, no arrow, and nothing that an arrow before it would take. */
  predicate BareHop(s: string) { '"' !in s && ArrowFree(s) && (s == [] || s[0] != '>') }

  function Ident(bare: Style, s: string): string { if bare(s) then s else QuoteIdent(s) }

  predicate Spellable(bare: Style, s: string) { s != "" && if bare(s) then BareHop(s) else '\\' !in s }

  predicate GoodPath(bare: Style, path: seq<string>, last: JsonStep) {
    && path != [] && (forall i :: 0 <= i < |path| ==> Spellable(bare, path[i]))
    && (|path| == 1 <==> last == NoStep)
  }

  function PrintArrow(last: JsonStep): string { if last == Arrow2 then "->>" else "->" }

  /** Hops, bare or quoted, joined by arrows; only the last arrow's kind is part of the reference. */
  function PrintPath(bare: Style, path: seq<string>, last: JsonStep): string
    requires path != []
  {
    if |path| == 1 then Ident(bare, path[0])
    else Ident(bare, path[0]) + PrintArrow(if |path| == 2 then last else Arrow) + PrintPath(bare, path[1..], last)
  }

  lemma {:induction false} SweepQuoted(s: string, after: string)
    requires '\\' !in s
    ensures var (h, l) := Sweep(after, Plain);
            Sweep(Double(s) + "\"" + after, Quoted) == (Attach(Double(s) + "\"", h), l)
  {
    var all := Double(s) + ("\"" + after);
    assert Double(s) + "\"" + after == all;
    var h := Sweep(after, Plain).0;
    if s == [] {
      assert all[0] == '"' && all[1..] == after && Double(s) + "\"" == "\"";
    } else {
      SweepQuoted(s[1..], after);
      DoubleHead(s, "\"" + after);
      assert Double(s[1..]) + "\"" + after == Double(s[1..]) + ("\"" + after);
      var rest := Double(s[1..]) + "\"";
      AttachTwice([s[0]], rest, h);
      if s[0] == '"' {
        AttachTwice("\"", "\"" + rest, h);
        AttachTwice("\"", rest, h);
        assert "\"" + ("\"" + rest) == Double(s) + "\"";
      } else {
        assert [s[0]] + rest == Double(s) + "\"";
      }
    }
  }

  lemma SweepQuotedIdent(s: string, after: string)
    requires '\\' !in s
    ensures var (h, l) := Sweep(after, Plain);
            Sweep(QuoteIdent(s) + after, Plain) == (Attach(QuoteIdent(s), h), l)
  {
    var all := QuoteIdent(s) + after;
    assert all[0] == '"' && all[1..] == Double(s) + "\"" + after;
    SweepQuoted(s, after);
    AttachTwice("\"", Double(s) + "\"", Sweep(after, Plain).0);
    assert "\"" + (Double(s) + "\"") == QuoteIdent(s);
  }

  lemma ArrowFreeTail(s: string)
    requires s != [] && ArrowFree(s)
    ensures ArrowFree(s[1..])
  {
    var t := s[1..];
    forall i | 0 <= i < |t| - 1 && t[i] == '-' ensures t[i + 1] != '>' {
      assert s[i + 1] == t[i] && s[i + 2] == t[i + 1];
    }
  }

  lemma {:induction false} SweepBare(s: string, after: string)
    requires '"' !in s && ArrowFree(s) && (after == [] || after[0] != '>')
    ensures var (h, l) := Sweep(after, Plain);
            Sweep(s + after, Plain) == (Attach(s, h), l)
  {
    var h := Sweep(after, Plain).0;
    if s == [] {
      assert s + after == after && [] + h[0] == h[0] && [h[0]] + h[1..] == h;
    } else {
      assert (s + after)[1..] == s[1..] + after;
      assert ArrowWidth(s + after) == 0;
      ArrowFreeTail(s);
      SweepBare(s[1..], after);
      AttachTwice([s[0]], s[1..], h);
      assert [s[0]] + s[1..] == s;
    }
  }

  lemma SweepIdent(bare: Style, s: string, after: string)
    requires Spellable(bare, s) && (after == [] || after[0] != '>')
    ensures var (h, l) := Sweep(after, Plain);
            Sweep(Ident(bare, s) + after, Plain) == (Attach(Ident(bare, s), h), l)
  {
    if bare(s) {
      SweepBare(s, after);
    } else {
      SweepQuotedIdent(s, after);
    }
  }

  lemma SweepOne(bare: Style, s: string)
    requires Spellable(bare, s)
    ensures Sweep(Ident(bare, s), Plain) == ([Ident(bare, s)], NoStep)
  {
    var ident := Ident(bare, s);
    SweepIdent(bare, s, "");
    assert ident + "" == ident;
    assert Attach(ident, [[]]) == [ident];
  }

  function Spelled(bare: Style, path: seq<string>): (r: seq<string>)
    ensures |r| == |path|
  {
    seq(|path|, i requires 0 <= i < |path| => Ident(bare, path[i]))
  }

  lemma {:induction false} SweepPrinted(bare: Style, path: seq<string>, last: JsonStep)
    requires path != [] && (|path| > 1 ==> last != NoStep)
    requires forall i :: 0 <= i < |path| ==> Spellable(bare, path[i])
    ensures Sweep(PrintPath(bare, path, last), Plain) == (Spelled(bare, path), if |path| == 1 then NoStep else last)
  {
    if |path| == 1 {
      SweepOne(bare, path[0]);
      assert Spelled(bare, path) == [Ident(bare, path[0])];
    } else {
      var arrow := PrintArrow(if |path| == 2 then last else Arrow);
      var tail := path[1..];
      SweepPrinted(bare, tail, last);
      HopHead(bare, tail, last);
      SweepHop(bare, path[0], arrow, PrintPath(bare, tail, last));
      SpelledTail(bare, path);
      Regroup(Ident(bare, path[0]), arrow, PrintPath(bare, tail, last));
    }
  }

  lemma Regroup(a: string, b: string, c: string)
    ensures a + b + c == a + (b + c)
  {
  }

  lemma SpelledTail(bare: Style, path: seq<string>)
    requires path != []
    ensures [Ident(bare, path[0])] + Spelled(bare, path[1..]) == Spelled(bare, path)
  {
  }

  lemma HopHead(bare: Style, path: seq<string>, last: JsonStep)
    requires path != [] && Spellable(bare, path[0])
    ensures var p := PrintPath(bare, path, last);
            p != [] && p[0] == (if bare(path[0]) then path[0][0] else '"') && p[0] != '>'
  {
  }

  /** A name before an arrow is one hop. */
  lemma SweepHop(bare: Style, s: string, arrow: string, rest: string)
    requires Spellable(bare, s) && (arrow == "->" || arrow == "->>") && rest != [] && rest[0] != '>'
    ensures var (hops, last) := Sweep(rest, Plain);
            Sweep(Ident(bare, s) + (arrow + rest), Plain) ==
            ([Ident(bare, s)] + hops, if last == NoStep then ArrowKind(|arrow|) else last)
  {
    SweepIdent(bare, s, arrow + rest);
    ArrowThen(arrow, rest);
    AttachEmpty(Ident(bare, s), Sweep(rest, Plain).0);
  }

  /** An arrow before a name is read as that arrow. */
  lemma ArrowThen(arrow: string, rest: string)
    requires (arrow == "->" || arrow == "->>") && rest != [] && rest[0] != '>'
    ensures (arrow + rest)[|arrow|..] == rest && ArrowWidth(arrow + rest) == |arrow|
  {
  }

  lemma UnquoteUndoesIdent(bare: Style, s: string)
    requires Spellable(bare, s)
    ensures UnquoteIdent(Ident(bare, s)) == s
  {
    UnquoteUndoesQuote(s);
  }

  /** Parsing a printed path, each name bare or quoted, returns its hops and the kind of its final arrow. */
  lemma PathRoundTrip(bare: Style, path: seq<string>, last: JsonStep)
    requires GoodPath(bare, path, last)
    ensures PathOf(PrintPath(bare, path, last)) == Ok((path, last))
  {
    SweepPrinted(bare, path, last);
    HopHead(bare, path, last);
    var hops := Spelled(bare, path);
    forall i | 0 <= i < |hops| ensures UnquoteAll(hops)[i] == path[i] { UnquoteUndoesIdent(bare, path[i]); }
    assert UnquoteAll(hops) == path;
  }

  /** A name as a client usually writes it, without quotes, is the column of that name. */
  lemma BareNameIsColumn(s: string)
    requires s != "" && '"' !in s && ArrowFree(s)
    ensures PathOf(s) == Ok(([s], NoStep))
  {
    SweepBare(s, "");
    assert s + "" == s && Attach(s, [[]]) == [s];
    assert UnquoteAll([s]) == [s];
  }

  /** Whatever the text, a path that parses has hops, none of them empty, and a final arrow if it has several. */
  lemma PathShaped(raw: string)
    ensures var r := PathOf(raw);
            r.Ok? ==> r.value.0 != [] && "" !in r.value.0 && (|r.value.0| == 1 <==> r.value.1 == NoStep)
  {
    SweepArrows(raw, Plain);
  }

  /** There is a last arrow exactly when there are several hops. */
  lemma {:induction false} SweepArrows(raw: string, q: Quote)
    ensures var (hops, last) := Sweep(raw, q); |hops| == 1 <==> last == NoStep
    decreases |raw|
  {
    if raw != [] {
      var w := if q == Plain then ArrowWidth(raw) else 0;
      if w > 0 {
        SweepArrows(raw[w..], Plain);
      } else {
        SweepArrows(raw[1..], NextQuote(q, raw[0]));
      }
    }
  }

  /** Names in which the scanners of a whole condition meet no delimiter. */
  predicate Hidden(bare: Style, path: seq<string>) {
    forall i :: 0 <= i < |path| ==> if bare(path[i]) then Neutral(path[i]) else '\\' !in path[i]
  }

  lemma PrintedPathText(bare: Style, path: seq<string>, last: JsonStep, after: string)
    requires |path| > 1
    ensures var arrow := PrintArrow(if |path| == 2 then last else Arrow);
            PrintPath(bare, path, last) + after ==
            Ident(bare, path[0]) + (arrow + (PrintPath(bare, path[1..], last) + after))
  {
    var ident, rest := Ident(bare, path[0]), PrintPath(bare, path[1..], last);
    var arrow := PrintArrow(if |path| == 2 then last else Arrow);
    Regroup(ident + arrow, rest, after);
    Regroup(ident, arrow, rest + after);
  }

  lemma CutIdent(bare: Style, s: string, after: string)
    requires if bare(s) then Neutral(s) else '\\' !in s
    ensures CutAt(Ident(bare, s) + after, '.', Plain) == |Ident(bare, s)| + CutAt(after, '.', Plain)
  {
    if bare(s) {
      CutNeutral(s, after);
    } else {
      CutQuotedIdent(s, '.', after);
    }
  }

  /** A delimiter is looked for after a printed path, never inside it, whatever its quoted names contain. */
  lemma {:induction false} CutAfterPath(bare: Style, path: seq<string>, last: JsonStep, after: string)
    requires path != [] && Hidden(bare, path)
    ensures var p := PrintPath(bare, path, last); CutAt(p + after, '.', Plain) == |p| + CutAt(after, '.', Plain)
  {
    if |path| == 1 {
      CutIdent(bare, path[0], after);
    } else {
      var arrow := PrintArrow(if |path| == 2 then last else Arrow);
      var rest := PrintPath(bare, path[1..], last);
      CutAfterPath(bare, path[1..], last, after);
      PrintedPathText(bare, path, last, after);
      CutIdent(bare, path[0], arrow + (rest + after));
      CutArrow(arrow, rest + after);
    }
  }

  lemma CutArrow(arrow: string, tail: string)
    requires arrow == "->" || arrow == "->>"
    ensures CutAt(arrow + tail, '.', Plain) == |arrow| + CutAt(tail, '.', Plain)
  {
    var all := arrow + tail;
    assert all[0] == '-' && all[1..][0] == '>' && all[1..][1..] == all[2..];
    assert CutAt(all, '.', Plain) == 1 + CutAt(all[1..], '.', Plain);
    assert CutAt(all[1..], '.', Plain) == 1 + CutAt(all[2..], '.', Plain);
    if arrow == "->>" {
      assert all[2..][0] == '>' && all[2..][1..] == tail;
      assert CutAt(all[2..], '.', Plain) == 1 + CutAt(tail, '.', Plain);
    } else {
      assert all[2..] == tail;
    }
  }

  lemma RunIdent(bare: Style, s: string, after: string)
    requires if bare(s) then Neutral(s) else '\\' !in s
    ensures Run(Ident(bare, s) + after, TOP) == Run(after, TOP)
  {
    if bare(s) {
      RunNeutral(s, after);
    } else {
      RunQuotedIdent(s, 0, after);
    }
  }

  lemma {:induction false} RunPath(bare: Style, path: seq<string>, last: JsonStep, after: string)
    requires path != [] && Hidden(bare, path)
    ensures Run(PrintPath(bare, path, last) + after, TOP) == Run(after, TOP)
  {
    if |path| == 1 {
      RunIdent(bare, path[0], after);
    } else {
      var arrow := PrintArrow(if |path| == 2 then last else Arrow);
      var rest := PrintPath(bare, path[1..], last);
      RunPath(bare, path[1..], last, after);
      PrintedPathText(bare, path, last, after);
      RunIdent(bare, path[0], arrow + (rest + after));
      RunArrow(arrow, rest + after);
    }
  }

  lemma RunArrow(arrow: string, tail: string)
    requires arrow == "->" || arrow == "->>"
    ensures Run(arrow + tail, TOP) == Run(tail, TOP)
  {
    var all := arrow + tail;
    assert all[0] == '-' && all[1..][0] == '>' && all[1..][1..] == all[2..];
    assert Run(all, TOP) == Run(all[1..], TOP) && Run(all[1..], TOP) == Run(all[2..], TOP);
    if arrow == "->>" {
      assert all[2..][0] == '>' && all[2..][1..] == tail;
      assert Run(all[2..], TOP) == Run(tail, TOP);
    } else {
      assert all[2..] == tail;
    }
  }
}
