/**
LIKE patterns and the anchored regular expressions MongoDB gets for them
(backend/mongo/query.go, likeToRegex).
*/
module LikePattern {
  import opened Wrappers

  predicate IsMeta(c: char) { c in ".*+?()[]{}^$|\\" }

  /** The translation of one pattern character. */
  function Escape(c: char): string {
    if c == '%' then ".*"
    else if c == '_' then "."
    else if IsMeta(c) then ['\\', c]
    else [c]
  }

  function Body(pat: string): string {
    if pat == [] then [] else Escape(pat[0]) + Body(pat[1..])
  }

  function Regex(pat: string): string { "^" + Body(pat) + "$" }

  lemma {:induction false} BodyAppend(a: string, b: string)
    ensures Body(a + b) == Body(a) + Body(b)
  {
    if a == [] {
      assert a + b == b;
    } else {
      assert (a + b)[1..] == a[1..] + b;
      BodyAppend(a[1..], b);
    }
  }

  lemma BodyNext(pat: string, i: nat)
    requires i < |pat|
    ensures Body(pat[..i + 1]) == Body(pat[..i]) + Escape(pat[i])
  {
    assert pat[..i + 1] == pat[..i] + [pat[i]];
    BodyAppend(pat[..i], [pat[i]]);
    assert [pat[i]][1..] == [];
  }

  method Translated(c: char) returns (r: string)
    ensures r == Escape(c)
  {
    if c == '%' {
      r := ".*";
    } else if c == '_' {
      r := ".";
    } else if IsMeta(c) {
      r := ['\\', c];
    } else {
      r := [c];
    }
  }

  method LikeToRegex(pat: string) returns (r: string)
    ensures r == Regex(pat)
  {
    r := "^";
    for i := 0 to |pat|
      invariant r == "^" + Body(pat[..i])
    {
      BodyNext(pat, i);
      var c := Translated(pat[i]);
      r := r + c;
    }
    assert pat[..|pat|] == pat;
    r := r + "$";
  }

  // ----- what a regular expression of this shape matches -----

  datatype Atom = Lit(c: char) | AnyChar | AnyRun

  /** Reads the text after the opening anchor: literals, escapes, `.`, `.*`, then the closing anchor. */
  function ParseAtoms(re: string): Option<seq<Atom>> {
    if re == "$" then Some([])
    else if re == [] then None
    else if re[0] == '.' then
      var run := |re| > 1 && re[1] == '*';
      var rest := ParseAtoms(re[if run then 2 else 1..]);
      if rest.None? then None else Some([if run then AnyRun else AnyChar] + rest.value)
    else if re[0] == '\\' then
      if |re| == 1 then None
      else
        var rest := ParseAtoms(re[2..]);
        if rest.None? then None else Some([Lit(re[1])] + rest.value)
    else if IsMeta(re[0]) then None
    else
      var rest := ParseAtoms(re[1..]);
      if rest.None? then None else Some([Lit(re[0])] + rest.value)
  }

  /** `.` stops at a newline, and the closing anchor also holds just before a final one. */
  predicate MatchAtoms(atoms: seq<Atom>, fold: char -> char, s: string)
    decreases |atoms| + |s|
  {
    if atoms == [] then s == [] || s == "\n"
    else match atoms[0]
      case Lit(c) => s != [] && fold(s[0]) == fold(c) && MatchAtoms(atoms[1..], fold, s[1..])
      case AnyChar => s != [] && s[0] != '\n' && MatchAtoms(atoms[1..], fold, s[1..])
      case AnyRun =>
        MatchAtoms(atoms[1..], fold, s) || (s != [] && s[0] != '\n' && MatchAtoms(atoms, fold, s[1..]))
  }

  /** Whether a string of this fragment matches; None for a string outside the fragment. */
  function RegexMatch(re: string, fold: char -> char, s: string): Option<bool> {
    if re == [] || re[0] != '^' then None
    else
      var atoms := ParseAtoms(re[1..]);
      if atoms.None? then None else Some(MatchAtoms(atoms.value, fold, s))
  }

  /** LIKE with `%` and `_` as its only wildcards, letters compared after folding. */
  predicate Like(pat: string, fold: char -> char, s: string)
    decreases |pat| + |s|
  {
    if pat == [] then s == []
    else if pat[0] == '%' then Like(pat[1..], fold, s) || (s != [] && Like(pat, fold, s[1..]))
    else s != [] && (pat[0] == '_' || fold(s[0]) == fold(pat[0])) && Like(pat[1..], fold, s[1..])
  }

  function Atoms(pat: string): seq<Atom> {
    if pat == [] then []
    else [if pat[0] == '%' then AnyRun else if pat[0] == '_' then AnyChar else Lit(pat[0])] + Atoms(pat[1..])
  }

  lemma {:induction false} ParseUndoesTranslation(pat: string)
    ensures ParseAtoms(Body(pat) + "$") == Some(Atoms(pat))
  {
    if pat != [] {
      var tail := Body(pat[1..]) + "$";
      ParseUndoesTranslation(pat[1..]);
      assert Body(pat) + "$" == Escape(pat[0]) + tail;
      TailIsNotStar(pat[1..]);
      var re := Escape(pat[0]) + tail;
      if pat[0] == '%' {
        assert re[2..] == tail && re[..2] == ".*";
      } else if pat[0] == '_' {
        assert re[1..] == tail && re[1] == tail[0];
      } else if IsMeta(pat[0]) {
        assert re[2..] == tail && re[0] == '\\' && re[1] == pat[0];
      } else {
        assert re[1..] == tail && re[0] == pat[0];
      }
    }
  }

  lemma TailIsNotStar(pat: string)
    ensures var tail := Body(pat) + "$"; tail != [] && tail[0] != '*'
  {
  }

  lemma {:induction false} AtomsMeanLike(pat: string, fold: char -> char, s: string)
    requires '\n' !in s
    ensures MatchAtoms(Atoms(pat), fold, s) == Like(pat, fold, s)
    decreases |pat| + |s|
  {
    if pat != [] {
      var atoms := Atoms(pat);
      assert atoms[1..] == Atoms(pat[1..]);
      if pat[0] == '%' {
        AtomsMeanLike(pat[1..], fold, s);
      }
      if s != [] {
        assert s[0] != '\n' && '\n' !in s[1..];
        AtomsMeanLike(if pat[0] == '%' then pat else pat[1..], fold, s[1..]);
      }
    }
  }

  /** On a string without newlines the regex matches exactly when the pattern does. */
  lemma RegexIsLike(pat: string, fold: char -> char, s: string)
    requires '\n' !in s
    ensures RegexMatch(Regex(pat), fold, s) == Some(Like(pat, fold, s))
  {
    RegexMeans(pat, fold, s);
    AtomsMeanLike(pat, fold, s);
  }

  lemma RegexMeans(pat: string, fold: char -> char, s: string)
    ensures RegexMatch(Regex(pat), fold, s) == Some(MatchAtoms(Atoms(pat), fold, s))
  {
    ParseUndoesTranslation(pat);
    assert Regex(pat)[1..] == Body(pat) + "$";
  }

  // ----- newlines are exactly where the two differ -----

  function Underscores(n: nat): string { seq(n, _ => '_') }

  lemma {:induction false} UnderscoresCount(n: nat, fold: char -> char, s: string)
    ensures Like(Underscores(n), fold, s) <==> |s| == n
    decreases n
  {
    if n > 0 {
      assert Underscores(n)[1..] == Underscores(n - 1);
      if s != [] {
        UnderscoresCount(n - 1, fold, s[1..]);
      }
    }
  }

  /** The closing anchor lets a final newline slip. */
  lemma {:induction false} FinalNewlineSlips(n: nat, fold: char -> char, s: string)
    requires |s| == n + 1 && s[n] == '\n' && forall i :: 0 <= i < n ==> s[i] != '\n'
    ensures MatchAtoms(Atoms(Underscores(n)), fold, s)
    decreases n
  {
    if n == 0 {
      assert s == "\n";
    } else {
      assert Underscores(n)[1..] == Underscores(n - 1);
      assert Atoms(Underscores(n))[1..] == Atoms(Underscores(n - 1));
      FinalNewlineSlips(n - 1, fold, s[1..]);
    }
  }

  lemma {:induction false} RunStopsAtNewline(fold: char -> char, s: string, i: nat)
    requires i + 1 < |s| && s[i] == '\n'
    ensures !MatchAtoms([AnyRun], fold, s)
    decreases |s|
  {
    assert [AnyRun][1..] == [];
    if i > 0 {
      RunStopsAtNewline(fold, s[1..], i - 1);
    }
  }

  lemma {:induction false} PercentMatchesAll(fold: char -> char, s: string)
    ensures Like("%", fold, s)
    decreases |s|
  {
    assert "%"[1..] == "";
    if s != [] {
      PercentMatchesAll(fold, s[1..]);
    }
  }

  ghost predicate RegexAgrees(pat: string, fold: char -> char, s: string) {
    RegexMatch(Regex(pat), fold, s) == Some(Like(pat, fold, s))
  }

  /** Every pattern agrees on a string exactly when the string has no newline. */
  lemma AgreesIffNoNewline(fold: char -> char, s: string)
    ensures (forall pat :: RegexAgrees(pat, fold, s)) <==> '\n' !in s
  {
    if '\n' !in s {
      forall pat ensures RegexAgrees(pat, fold, s) { RegexIsLike(pat, fold, s); }
    } else {
      var i :| 0 <= i < |s| && s[i] == '\n';
      var n := |s| - 1;
      if j :| 0 <= j < n && s[j] == '\n' {
        RegexMeans("%", fold, s);
        RunStopsAtNewline(fold, s, j);
        assert Atoms("%") == [AnyRun];
        PercentMatchesAll(fold, s);
        assert !RegexAgrees("%", fold, s);
      } else {
        assert i == n;
        RegexMeans(Underscores(n), fold, s);
        UnderscoresCount(n, fold, s);
        FinalNewlineSlips(n, fold, s);
        assert !RegexAgrees(Underscores(n), fold, s);
      }
    }
  }

  // ----- and backslashes are where PostgreSQL's LIKE differs -----

  /** LIKE as PostgreSQL has it: a backslash takes the next character literally. */
  predicate EscLike(pat: string, fold: char -> char, s: string)
    decreases |pat| + |s|
  {
    if pat == [] then s == []
    else if pat[0] == '\\' then
      |pat| > 1 && s != [] && fold(s[0]) == fold(pat[1]) && EscLike(pat[2..], fold, s[1..])
    else if pat[0] == '%' then EscLike(pat[1..], fold, s) || (s != [] && EscLike(pat, fold, s[1..]))
    else s != [] && (pat[0] == '_' || fold(s[0]) == fold(pat[0])) && EscLike(pat[1..], fold, s[1..])
  }

  /** The pattern ends in a backslash with nothing to escape, an error in PostgreSQL. */
  predicate Dangling(pat: string) {
    pat != [] && if pat[0] == '\\' then |pat| == 1 || Dangling(pat[2..]) else Dangling(pat[1..])
  }

  /** No other character folds to a backslash. */
  ghost predicate KeepsBackslash(fold: char -> char) { forall c :: fold(c) == fold('\\') ==> c == '\\' }

  function Backslashes(s: string): nat {
    if s == [] then 0 else (if s[0] == '\\' then 1 else 0) + Backslashes(s[1..])
  }

  /** The shortest string of the escaping pattern. */
  function Shortest(pat: string): string {
    if pat == [] then []
    else if pat[0] == '\\' then (if |pat| == 1 then [] else [pat[1]] + Shortest(pat[2..]))
    else if pat[0] == '%' then Shortest(pat[1..])
    else [if pat[0] == '_' then 'a' else pat[0]] + Shortest(pat[1..])
  }

  lemma {:induction false} ShortestMatches(pat: string, fold: char -> char)
    requires !Dangling(pat)
    ensures EscLike(pat, fold, Shortest(pat))
  {
    if pat != [] {
      var s := Shortest(pat);
      if pat[0] == '\\' {
        ShortestMatches(pat[2..], fold);
        assert s[1..] == Shortest(pat[2..]);
      } else {
        ShortestMatches(pat[1..], fold);
        if pat[0] != '%' {
          assert s[1..] == Shortest(pat[1..]);
        }
      }
    }
  }

  lemma {:induction false} ShortestHasNoNewline(pat: string)
    requires '\n' !in pat
    ensures '\n' !in Shortest(pat)
  {
    if pat != [] {
      if pat[0] == '\\' && |pat| > 1 {
        assert pat[1] in pat && forall c :: c in pat[2..] ==> c in pat;
        ShortestHasNoNewline(pat[2..]);
      } else {
        ShortestHasNoNewline(pat[1..]);
      }
    }
  }

  /** Escaping uses up backslashes. */
  lemma {:induction false} ShortestDropsBackslashes(pat: string)
    requires !Dangling(pat)
    ensures Backslashes(Shortest(pat)) <= Backslashes(pat)
    ensures '\\' in pat ==> Backslashes(Shortest(pat)) < Backslashes(pat)
  {
    if pat != [] {
      var s := Shortest(pat);
      if pat[0] == '\\' {
        ShortestDropsBackslashes(pat[2..]);
        assert pat[1..][1..] == pat[2..] && s[1..] == Shortest(pat[2..]);
        assert Backslashes(pat) == 1 + Backslashes(pat[1..]);
      } else {
        ShortestDropsBackslashes(pat[1..]);
        assert '\\' in pat ==> '\\' in pat[1..];
        if pat[0] != '%' {
          assert s[1..] == Shortest(pat[1..]);
        }
      }
    }
  }

  /** Without escaping, each backslash of the pattern needs one of the string. */
  lemma {:induction false} LikeNeedsBackslashes(pat: string, fold: char -> char, s: string)
    requires KeepsBackslash(fold) && Like(pat, fold, s)
    ensures Backslashes(pat) <= Backslashes(s)
    decreases |pat| + |s|
  {
    if pat != [] {
      if pat[0] == '%' && Like(pat[1..], fold, s) {
        LikeNeedsBackslashes(pat[1..], fold, s);
      } else if pat[0] == '%' {
        LikeNeedsBackslashes(pat, fold, s[1..]);
      } else {
        LikeNeedsBackslashes(pat[1..], fold, s[1..]);
      }
    }
  }

  lemma {:induction false} NoBackslashNoDifference(pat: string, fold: char -> char, s: string)
    requires '\\' !in pat
    ensures !Dangling(pat) && EscLike(pat, fold, s) == Like(pat, fold, s)
    decreases |pat| + |s|
  {
    if pat != [] {
      assert pat[0] in pat && forall c :: c in pat[1..] ==> c in pat;
      NoBackslashNoDifference(pat[1..], fold, s);
      if s != [] {
        NoBackslashNoDifference(if pat[0] == '%' then pat else pat[1..], fold, s[1..]);
      }
    }
  }

  ghost predicate AgreesWithPostgres(pat: string, fold: char -> char) {
    !Dangling(pat) && forall s :: '\n' !in s ==> RegexMatch(Regex(pat), fold, s) == Some(EscLike(pat, fold, s))
  }

  /**
  The regular expression means what PostgreSQL's LIKE does on all newline-free strings exactly without backslashes.
  */
  lemma AgreesIffNoBackslash(pat: string, fold: char -> char)
    requires '\n' !in pat && KeepsBackslash(fold)
    ensures AgreesWithPostgres(pat, fold) <==> '\\' !in pat
  {
    if '\\' !in pat {
      forall s: string | '\n' !in s ensures RegexMatch(Regex(pat), fold, s) == Some(EscLike(pat, fold, s)) {
        RegexIsLike(pat, fold, s);
        NoBackslashNoDifference(pat, fold, s);
      }
      NoBackslashNoDifference(pat, fold, []);
    } else if !Dangling(pat) {
      var s := Shortest(pat);
      ShortestMatches(pat, fold);
      ShortestHasNoNewline(pat);
      ShortestDropsBackslashes(pat);
      RegexIsLike(pat, fold, s);
      if Like(pat, fold, s) {
        LikeNeedsBackslashes(pat, fold, s);
      }
    }
  }

  /** For one: `50\%` is the text 50% in PostgreSQL, and the regular expression does not match that. */
  lemma EscapedPercentDiffers(fold: char -> char)
    requires KeepsBackslash(fold)
    ensures EscLike("50\\%", fold, "50%") && RegexMatch(Regex("50\\%"), fold, "50%") == Some(false)
  {
    var pat, rest, last := "50\\%", "0\\%", "\\%";
    assert pat[1..] == rest && rest[1..] == last && last[2..] == "";
    assert Shortest("") == "" && !Dangling("");
    assert Shortest(last) == "%" && !Dangling(last);
    assert Shortest(rest) == "0" + Shortest(last) && !Dangling(rest);
    assert Shortest(pat) == "5" + Shortest(rest) && !Dangling(pat);
    assert Shortest(pat) == "50%";
    ShortestMatches(pat, fold);
    ShortestDropsBackslashes(pat);
    assert pat[2] == '\\';
    RegexIsLike(pat, fold, "50%");
    if Like(pat, fold, "50%") {
      LikeNeedsBackslashes(pat, fold, "50%");
    }
  }
}
