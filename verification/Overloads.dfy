/** Overload resolution for remote procedure calls (rpc/registry.go, StaticRegistry.Resolve). */
module Overloads {
  import opened Wrappers
  import opened RowOrder
  import opened Strings

  datatype Param = Param(name: string, type_: string, optional: bool, variadic: bool)

  datatype Function = Function(name: string, params: seq<Param>, sql: string)

  datatype Resolution = Found(f: Function) | Ambiguous(signatures: seq<string>) | NotFound

  // ----- one overload -----

  function Required(params: seq<Param>): seq<string> {
    if params == [] then []
    else
      var p := params[|params| - 1];
      Required(params[..|params| - 1]) + if !p.optional && !p.variadic then [p.name] else []
  }

  predicate HasParam(f: Function, name: string) {
    exists i :: 0 <= i < |f.params| && f.params[i].name == name
  }

  predicate Satisfiable(f: Function, args: set<string>) {
    && (forall i :: 0 <= i < |Required(f.params)| ==> Required(f.params)[i] in args)
    && (forall a :: a in args ==> HasParam(f, a))
  }

  predicate Needs(p: Param) { !p.optional && !p.variadic }

  lemma {:induction false} RequiredAre(params: seq<Param>, x: string)
    ensures x in Required(params) <==> exists i :: 0 <= i < |params| && Needs(params[i]) && params[i].name == x
  {
    if params != [] {
      var n := |params| - 1;
      var init := params[..n];
      RequiredAre(init, x);
      assert forall i :: 0 <= i < n ==> init[i] == params[i];
    }
  }

  /** The positions, among the first `n`, of parameters that must be given. */
  ghost function NeededAt(params: seq<Param>, n: nat): set<nat>
    requires n <= |params|
  {
    set i: nat | i < n && Needs(params[i])
  }

  lemma NeededNext(params: seq<Param>, n: nat)
    requires n < |params|
    ensures |NeededAt(params, n + 1)| == |NeededAt(params, n)| + if Needs(params[n]) then 1 else 0
  {
    assert NeededAt(params, n + 1) == NeededAt(params, n) + if Needs(params[n]) then {n} else {};
  }

  /** A parameter is counted as often as it is declared. */
  lemma {:induction false} RequiredCount(params: seq<Param>)
    ensures |Required(params)| == |NeededAt(params, |params|)|
  {
    if params != [] {
      var n := |params| - 1;
      RequiredCount(params[..n]);
      NeededNext(params, n);
      assert NeededAt(params[..n], n) == NeededAt(params, n);
    }
  }

  /** A call suits an overload when it gives every parameter that must be given, and nothing it does not have. */
  lemma SatisfiableMeans(f: Function, args: set<string>)
    ensures Satisfiable(f, args) <==>
            && (forall i :: 0 <= i < |f.params| && Needs(f.params[i]) ==> f.params[i].name in args)
            && (forall a :: a in args ==> HasParam(f, a))
  {
    var r := Required(f.params);
    forall i | 0 <= i < |r| ensures exists k :: 0 <= k < |f.params| && Needs(f.params[k]) && f.params[k].name == r[i] {
      assert r[i] in r;
      RequiredAre(f.params, r[i]);
    }
    forall k | 0 <= k < |f.params| && Needs(f.params[k]) ensures f.params[k].name in r {
      RequiredAre(f.params, f.params[k].name);
    }
  }

  predicate ExactMatch(f: Function, args: set<string>) {
    |args| == |f.params| && forall i :: 0 <= i < |f.params| ==> f.params[i].name in args
  }

  function Score(f: Function, args: set<string>): nat {
    |Required(f.params)| + if ExactMatch(f, args) then 1000 else 0
  }

  function JoinParams(params: seq<Param>): string {
    if params == [] then ""
    else
      var p := params[|params| - 1];
      (if |params| == 1 then "" else JoinParams(params[..|params| - 1]) + ", ") + p.name + " => " + p.type_
  }

  function Signature(f: Function): string { f.name + "(" + JoinParams(f.params) + ")" }

  function Listed(pieces: seq<string>): string {
    if pieces == [] then "" else if |pieces| == 1 then pieces[0] else pieces[0] + ", " + Listed(pieces[1..])
  }

  lemma {:induction false} ListedAppend(pieces: seq<string>, x: string)
    ensures Listed(pieces + [x]) == if pieces == [] then x else Listed(pieces) + ", " + x
  {
    if pieces != [] {
      assert (pieces + [x])[1..] == pieces[1..] + [x];
      ListedAppend(pieces[1..], x);
    }
  }

  function Typed(params: seq<Param>): (r: seq<string>)
    ensures |r| == |params|
  {
    seq(|params|, i requires 0 <= i < |params| => params[i].name + " => " + params[i].type_)
  }

  lemma {:induction false} JoinedAreListed(params: seq<Param>)
    ensures JoinParams(params) == Listed(Typed(params))
  {
    if params != [] {
      var n := |params| - 1;
      JoinedAreListed(params[..n]);
      assert Typed(params) == Typed(params[..n]) + [params[n].name + " => " + params[n].type_];
      ListedAppend(Typed(params[..n]), params[n].name + " => " + params[n].type_);
    }
  }

  // ----- sorting signatures -----

  ghost predicate Sorted(s: seq<string>) {
    forall i, j :: 0 <= i < j < |s| ==> CompareText(s[i], s[j]) <= 0
  }

  function Insert(x: string, s: seq<string>): seq<string> {
    if s == [] || CompareText(x, s[0]) <= 0 then [x] + s else [s[0]] + Insert(x, s[1..])
  }

  function Sort(s: seq<string>): seq<string> {
    if s == [] then [] else Insert(s[0], Sort(s[1..]))
  }

  lemma {:induction false} InsertAdds(x: string, s: seq<string>)
    ensures multiset(Insert(x, s)) == multiset(s) + multiset{x}
  {
    if s != [] && CompareText(x, s[0]) > 0 {
      InsertAdds(x, s[1..]);
      assert s == [s[0]] + s[1..];
    }
  }

  lemma InsertMembers(x: string, s: seq<string>, y: string)
    requires y in Insert(x, s)
    ensures y == x || y in s
  {
    InsertAdds(x, s);
    assert y in multiset(Insert(x, s));
  }

  /** A least element in front keeps a list sorted. */
  lemma SortedCons(x: string, s: seq<string>)
    requires Sorted(s) && forall j :: 0 <= j < |s| ==> CompareText(x, s[j]) <= 0
    ensures Sorted([x] + s)
  {
  }

  lemma {:induction false} InsertSorts(x: string, s: seq<string>)
    requires Sorted(s)
    ensures Sorted(Insert(x, s))
  {
    if s == [] {
    } else if CompareText(x, s[0]) <= 0 {
      forall j | 0 <= j < |s| ensures CompareText(x, s[j]) <= 0 { CompareTextLawful(x, s[0], s[j]); }
      SortedCons(x, s);
    } else {
      InsertSorts(x, s[1..]);
      var r := Insert(x, s[1..]);
      forall j | 0 <= j < |r| ensures CompareText(s[0], r[j]) <= 0 {
        CompareTextLawful(x, s[0], x);
        InsertMembers(x, s[1..], r[j]);
      }
      SortedCons(s[0], r);
    }
  }

  lemma {:induction false} SortSorts(s: seq<string>)
    ensures Sorted(Sort(s)) && multiset(Sort(s)) == multiset(s)
  {
    if s != [] {
      SortSorts(s[1..]);
      InsertSorts(s[0], Sort(s[1..]));
      InsertAdds(s[0], Sort(s[1..]));
      assert s == [s[0]] + s[1..];
    }
  }

  lemma SameLeast(a: seq<string>, b: seq<string>)
    requires Sorted(a) && Sorted(b) && multiset(a) == multiset(b) && a != [] && b != []
    ensures a[0] == b[0]
  {
    SameMembers(a, b, a[0]);
    SameMembers(a, b, b[0]);
    var i :| 0 <= i < |b| && b[i] == a[0];
    var j :| 0 <= j < |a| && a[j] == b[0];
    CompareTextLawful(a[0], b[0], a[0]);
    CompareTextLawful(b[0], a[0], b[0]);
  }

  lemma SameTails(a: seq<string>, b: seq<string>)
    requires a != [] && b != [] && a[0] == b[0] && multiset(a) == multiset(b)
    ensures multiset(a[1..]) == multiset(b[1..])
  {
    DroppedMultiset(a, 0);
    DroppedMultiset(b, 0);
    assert Dropped(a, 0) == a[1..] && Dropped(b, 0) == b[1..];
  }

  lemma {:induction false} SortedUnique(a: seq<string>, b: seq<string>)
    requires Sorted(a) && Sorted(b) && multiset(a) == multiset(b)
    ensures a == b
  {
    assert |multiset(a)| == |a| && |multiset(b)| == |b|;
    if a != [] {
      SameLeast(a, b);
      SameTails(a, b);
      SortedUnique(a[1..], b[1..]);
      assert a == [a[0]] + a[1..] && b == [b[0]] + b[1..];
    }
  }

  // ----- picking from a list -----

  function Filter<T>(s: seq<T>, pick: T -> bool): seq<T> {
    if s == [] then [] else Filter(s[..|s| - 1], pick) + if pick(s[|s| - 1]) then [s[|s| - 1]] else []
  }

  lemma {:induction false} FilterCounts<T>(s: seq<T>, pick: T -> bool, x: T)
    ensures multiset(Filter(s, pick))[x] == if pick(x) then multiset(s)[x] else 0
  {
    if s != [] {
      FilterCounts(s[..|s| - 1], pick, x);
      assert s == s[..|s| - 1] + [s[|s| - 1]];
    }
  }

  /** The chosen positions, in order. */
  ghost predicate Positions<T>(s: seq<T>, pick: T -> bool, at: seq<nat>) {
    && (forall k, l :: 0 <= k < l < |at| ==> at[k] < at[l])
    && (forall i :: i in at <==> 0 <= i < |s| && pick(s[i]))
  }

  lemma PositionsNext<T>(s: seq<T>, pick: T -> bool, at: seq<nat>)
    requires s != [] && Positions(s[..|s| - 1], pick, at)
    ensures Positions(s, pick, if pick(s[|s| - 1]) then at + [|s| - 1] else at)
  {
    var n := |s| - 1;
    var init := s[..n];
    assert forall i :: 0 <= i < n ==> init[i] == s[i];
    forall k | 0 <= k < |at| ensures at[k] < n { assert at[k] in at; }
    var more := if pick(s[n]) then at + [n] else at;
    forall i: nat ensures i in more <==> i < |s| && pick(s[i]) {
      assert i in more <==> i in at || (i == n && pick(s[n]));
      assert i in at <==> i < n && pick(init[i]);
    }
  }

  lemma {:induction false} FilterPositions<T>(s: seq<T>, pick: T -> bool) returns (at: seq<nat>)
    ensures Positions(s, pick, at) && |at| == |Filter(s, pick)|
    ensures forall k :: 0 <= k < |at| ==> at[k] < |s| && s[at[k]] == Filter(s, pick)[k]
  {
    if s == [] {
      at := [];
    } else {
      var n := |s| - 1;
      at := FilterPositions(s[..n], pick);
      PositionsNext(s, pick, at);
      if pick(s[n]) {
        at := at + [n];
      }
    }
  }

  lemma SameMembers<T>(a: seq<T>, b: seq<T>, x: T)
    requires multiset(a) == multiset(b)
    ensures x in a <==> x in b
  {
    assert x in a <==> x in multiset(a);
    assert x in b <==> x in multiset(b);
  }

  function Dropped<T>(t: seq<T>, i: nat): seq<T>
    requires i < |t|
  {
    t[..i] + t[i + 1..]
  }

  lemma DroppedMultiset<T>(t: seq<T>, i: nat)
    requires i < |t|
    ensures multiset(Dropped(t, i)) == multiset(t) - multiset{t[i]}
  {
    assert t == t[..i] + ([t[i]] + t[i + 1..]);
    assert multiset(t) == multiset(Dropped(t, i)) + multiset{t[i]};
  }

  lemma FilterIgnoresOrder(a: seq<Function>, b: seq<Function>, pick: Function -> bool)
    requires multiset(a) == multiset(b)
    ensures multiset(Filter(a, pick)) == multiset(Filter(b, pick))
  {
    var p, q := multiset(Filter(a, pick)), multiset(Filter(b, pick));
    forall x: Function ensures p[x] == q[x] {
      FilterCounts(a, pick, x);
      FilterCounts(b, pick, x);
    }
    assert p == q;
  }

  // ----- resolution -----

  /** The highest score of a satisfiable overload, or -1. */
  function BestScore(cands: seq<Function>, args: set<string>): int {
    if cands == [] then -1
    else
      var best, f := BestScore(cands[..|cands| - 1], args), cands[|cands| - 1];
      if Satisfiable(f, args) && Score(f, args) > best then Score(f, args) else best
  }

  function Scores(args: set<string>, score: int): Function -> bool {
    f => Satisfiable(f, args) && Score(f, args) == score
  }

  function Signatures(fs: seq<Function>): (r: seq<string>)
    ensures |r| == |fs|
  {
    seq(|fs|, i requires 0 <= i < |fs| => Signature(fs[i]))
  }

  function Resolved(cands: seq<Function>, args: set<string>): Resolution {
    var best := BestScore(cands, args);
    var tied := Filter(cands, Scores(args, best));
    if best == -1 then NotFound
    else if |tied| == 1 then Found(tied[0])
    else Ambiguous(Sort(Signatures(tied)))
  }

  lemma {:induction false} BestScoreIs(cands: seq<Function>, args: set<string>)
    ensures BestScore(cands, args) >= -1
    ensures forall f :: f in cands && Satisfiable(f, args) ==> Score(f, args) <= BestScore(cands, args)
    ensures BestScore(cands, args) >= 0 ==>
              exists f :: f in cands && Satisfiable(f, args) && Score(f, args) == BestScore(cands, args)
  {
    if cands != [] {
      var init := cands[..|cands| - 1];
      BestScoreIs(init, args);
      assert cands == init + [cands[|cands| - 1]];
    }
  }

  /** Nothing scores above the running best, so a new best starts a new list. */
  lemma {:induction false} NothingAbove(cands: seq<Function>, args: set<string>, score: int)
    requires score > BestScore(cands, args)
    ensures Filter(cands, Scores(args, score)) == []
  {
    if cands != [] {
      NothingAbove(cands[..|cands| - 1], args, score);
    }
  }

  lemma BestIsTied(cands: seq<Function>, args: set<string>)
    ensures var best := BestScore(cands, args); best >= 0 ==> Filter(cands, Scores(args, best)) != []
  {
    BestScoreIs(cands, args);
    var best := BestScore(cands, args);
    if best >= 0 {
      var f :| f in cands && Satisfiable(f, args) && Score(f, args) == best;
      FilterCounts(cands, Scores(args, best), f);
      assert multiset(Filter(cands, Scores(args, best)))[f] > 0;
    }
  }

  method Resolve(cands: seq<Function>, args: set<string>) returns (r: Resolution)
    ensures r == Resolved(cands, args)
  {
    var bestScore: int, tied: seq<Function> := -1, [];
    for i := 0 to |cands|
      invariant bestScore == BestScore(cands[..i], args)
      invariant tied == if bestScore == -1 then [] else Filter(cands[..i], Scores(args, bestScore))
    {
      var f := cands[i];
      assert cands[..i + 1][..i] == cands[..i];
      if Satisfiable(f, args) {
        var score := Score(f, args);
        if score > bestScore {
          NothingAbove(cands[..i], args, score);
          bestScore, tied := score, [f];
        } else if score == bestScore {
          tied := tied + [f];
        }
      }
    }
    assert cands[..|cands|] == cands;
    if bestScore == -1 {
      return NotFound;
    }
    BestIsTied(cands, args);
    if |tied| > 1 {
      return Ambiguous(Sort(Signatures(tied)));
    }
    return Found(tied[0]);
  }

  // ----- what the answer means -----

  ghost predicate IsBest(cands: seq<Function>, args: set<string>, i: int) {
    && 0 <= i < |cands| && Satisfiable(cands[i], args)
    && forall j :: 0 <= j < |cands| && Satisfiable(cands[j], args) ==> Score(cands[j], args) <= Score(cands[i], args)
  }

  lemma BestPosition(cands: seq<Function>, args: set<string>, i: int)
    ensures IsBest(cands, args, i) <==> 0 <= i < |cands| && Scores(args, BestScore(cands, args))(cands[i])
  {
    BestScoreIs(cands, args);
    var best := BestScore(cands, args);
    if IsBest(cands, args, i) {
      assert cands[i] in cands;
      var f :| f in cands && Satisfiable(f, args) && Score(f, args) == best;
      var j :| 0 <= j < |cands| && cands[j] == f;
    }
  }

  function SignaturesAt(cands: seq<Function>, at: seq<nat>): (r: seq<string>)
    requires forall k :: 0 <= k < |at| ==> at[k] < |cands|
  {
    seq(|at|, k requires 0 <= k < |at| => Signature(cands[at[k]]))
  }

  /**
  With `at` the positions of the best satisfiable overloads: none means not found, one means that overload, and more
  mean exactly their signatures, sorted.
  */
  lemma ResolvedMeans(cands: seq<Function>, args: set<string>) returns (at: seq<nat>)
    ensures forall k, l :: 0 <= k < l < |at| ==> at[k] < at[l]
    ensures forall i :: i in at <==> IsBest(cands, args, i)
    ensures forall k :: 0 <= k < |at| ==> at[k] < |cands|
    ensures at == [] <==> forall i :: 0 <= i < |cands| ==> !Satisfiable(cands[i], args)
    ensures match Resolved(cands, args)
            case NotFound => at == []
            case Found(f) => |at| == 1 && f == cands[at[0]]
            case Ambiguous(sigs) => |at| > 1 && Sorted(sigs) && multiset(sigs) == multiset(SignaturesAt(cands, at))
  {
    var best := BestScore(cands, args);
    var pick := Scores(args, best);
    at := BestPositions(cands, args);
    var tied := Filter(cands, pick);
    BestIsTied(cands, args);
    assert SignaturesAt(cands, at) == Signatures(tied);
    SortSorts(Signatures(tied));
  }

  lemma BestPositions(cands: seq<Function>, args: set<string>) returns (at: seq<nat>)
    ensures forall k, l :: 0 <= k < l < |at| ==> at[k] < at[l]
    ensures forall i :: i in at <==> IsBest(cands, args, i)
    ensures var tied := Filter(cands, Scores(args, BestScore(cands, args)));
            |at| == |tied| && forall k :: 0 <= k < |at| ==> at[k] < |cands| && cands[at[k]] == tied[k]
    ensures at == [] <==> BestScore(cands, args) == -1
    ensures at == [] <==> forall i :: 0 <= i < |cands| ==> !Satisfiable(cands[i], args)
  {
    at := FilterPositions(cands, Scores(args, BestScore(cands, args)));
    forall i ensures i in at <==> IsBest(cands, args, i) { BestPosition(cands, args, i); }
    BestScoreIs(cands, args);
    BestIsTied(cands, args);
    if at != [] {
      assert at[0] in at && cands[at[0]] in cands;
    }
    if i :| 0 <= i < |cands| && Satisfiable(cands[i], args) {
      assert cands[i] in cands;
    }
  }

  lemma BestScoreIgnoresOrder(a: seq<Function>, b: seq<Function>, args: set<string>)
    requires multiset(a) == multiset(b)
    ensures BestScore(a, args) == BestScore(b, args)
  {
    BestScoreIs(a, args);
    BestScoreIs(b, args);
    forall f ensures f in a <==> f in b { SameMembers(a, b, f); }
  }

  /** The order in which overloads were declared does not matter. */
  lemma ResolvedIgnoresOrder(a: seq<Function>, b: seq<Function>, args: set<string>)
    requires multiset(a) == multiset(b)
    ensures Resolved(a, args) == Resolved(b, args)
  {
    BestScoreIgnoresOrder(a, b, args);
    var pick := Scores(args, BestScore(a, args));
    FilterIgnoresOrder(a, b, pick);
    var s, t := Filter(a, pick), Filter(b, pick);
    SameSingle(s, t);
    SortedSignaturesAgree(s, t);
  }

  lemma SameSingle(s: seq<Function>, t: seq<Function>)
    requires multiset(s) == multiset(t)
    ensures |s| == |t| && (|s| == 1 ==> s[0] == t[0])
  {
    assert |s| == |multiset(s)| && |multiset(t)| == |t|;
    if |s| == 1 {
      SameMembers(s, t, s[0]);
    }
  }

  lemma SortedSignaturesAgree(s: seq<Function>, t: seq<Function>)
    requires multiset(s) == multiset(t)
    ensures Sort(Signatures(s)) == Sort(Signatures(t))
  {
    SignaturesFollow(s, t);
    SortSorts(Signatures(s));
    SortSorts(Signatures(t));
    SortedUnique(Sort(Signatures(s)), Sort(Signatures(t)));
  }

  lemma {:induction false} SignaturesFollow(s: seq<Function>, t: seq<Function>)
    requires multiset(s) == multiset(t)
    ensures multiset(Signatures(s)) == multiset(Signatures(t))
    decreases |s|
  {
    assert |s| == |multiset(s)| && |multiset(t)| == |t|;
    if s != [] {
      assert s[0] in multiset(t);
      var i :| 0 <= i < |t| && t[i] == s[0];
      DroppedMultiset(s, 0);
      DroppedMultiset(t, i);
      SignaturesFollow(Dropped(s, 0), Dropped(t, i));
      SignaturesDropped(s, 0);
      SignaturesDropped(t, i);
    }
  }

  lemma SignaturesDropped(t: seq<Function>, i: nat)
    requires i < |t|
    ensures multiset(Signatures(t)) == multiset(Signatures(Dropped(t, i))) + multiset{Signature(t[i])}
  {
    var a, b := Signatures(t[..i]), Signatures(t[i + 1..]);
    assert Signatures(t) == a + ([Signature(t[i])] + b);
    assert Signatures(Dropped(t, i)) == a + b;
  }

  // ----- an exact parameter set wins -----

  predicate DistinctParams(f: Function) {
    forall i, j :: 0 <= i < j < |f.params| ==> f.params[i].name != f.params[j].name
  }

  predicate Distinct(r: seq<string>) { forall i, j :: 0 <= i < j < |r| ==> r[i] != r[j] }

  predicate Names(params: seq<Param>, x: string) { exists k :: 0 <= k < |params| && params[k].name == x }

  /** Required names are distinct parameter names. */
  lemma {:induction false} RequiredDistinct(params: seq<Param>)
    requires forall i, j :: 0 <= i < j < |params| ==> params[i].name != params[j].name
    ensures Distinct(Required(params))
    ensures forall x :: x in Required(params) ==> Names(params, x)
  {
    if params != [] {
      var init := params[..|params| - 1];
      RequiredDistinct(init);
      var r := Required(init);
      forall i | 0 <= i < |r| ensures Names(params, r[i]) && r[i] != params[|params| - 1].name {
        assert r[i] in r;
        var k :| 0 <= k < |init| && init[k].name == r[i];
        assert params[k].name == r[i];
      }
    }
  }

  lemma {:induction false} DistinctFit(r: seq<string>, args: set<string>)
    requires Distinct(r) && forall i :: 0 <= i < |r| ==> r[i] in args
    ensures |r| <= |args|
  {
    if r != [] {
      DistinctFit(r[..|r| - 1], args - {r[|r| - 1]});
    }
  }

  /** With fewer than 1000 arguments an exact match beats every inexact overload. */
  lemma ExactBeatsInexact(f: Function, g: Function, args: set<string>)
    requires |args| < 1000 && DistinctParams(g) && Satisfiable(g, args)
    requires ExactMatch(f, args) && !ExactMatch(g, args)
    ensures Score(f, args) > Score(g, args)
  {
    RequiredDistinct(g.params);
    DistinctFit(Required(g.params), args);
  }

  predicate Callable(f: Function, args: set<string>) { DistinctParams(f) && Satisfiable(f, args) }

  ghost predicate ExactWins(args: set<string>) {
    forall f, g :: Callable(f, args) && Callable(g, args) && ExactMatch(f, args) && !ExactMatch(g, args) ==>
      Score(f, args) > Score(g, args)
  }

  lemma {:induction false} Enumerate(args: set<string>) returns (s: seq<string>)
    ensures Distinct(s) && |s| == |args| && forall x :: x in s <==> x in args
  {
    if args == {} {
      s := [];
    } else {
      var x :| x in args;
      s := Enumerate(args - {x});
      s := s + [x];
    }
  }

  /** One parameter per name, all of them optional or all required. */
  function Params(names: seq<string>, optional: bool): (r: seq<Param>)
    ensures |r| == |names|
  {
    seq(|names|, i requires 0 <= i < |names| => Param(names[i], "", optional, false))
  }

  lemma {:induction false} RequiredOf(names: seq<string>, optional: bool)
    ensures Required(Params(names, optional)) == if optional then [] else names
  {
    if names != [] {
      var n := |names| - 1;
      var params := Params(names, optional);
      assert params[..n] == Params(names[..n], optional) && params[n] == Param(names[n], "", optional, false);
      RequiredOf(names[..n], optional);
      assert Required(params) == Required(params[..n]) + if optional then [] else [names[n]];
      assert names == names[..n] + [names[n]];
    }
  }

  /** An exact match wins outright exactly when there are fewer than 1000 arguments. */
  lemma ExactWinsIffFewArguments(args: set<string>)
    ensures ExactWins(args) <==> |args| < 1000
  {
    if |args| < 1000 {
      forall f, g | Callable(f, args) && Callable(g, args) && ExactMatch(f, args) && !ExactMatch(g, args)
        ensures Score(f, args) > Score(g, args)
      {
        ExactBeatsInexact(f, g, args);
      }
    } else {
      var f, g := TooManyArguments(args);
    }
  }

  /** An exact match all of whose parameters are optional scores just the bonus. */
  lemma OptionalExact(names: seq<string>, args: set<string>) returns (f: Function)
    requires (forall x :: x in names <==> x in args) && Distinct(names) && |names| == |args|
    ensures DistinctParams(f) && Satisfiable(f, args) && ExactMatch(f, args) && Score(f, args) == 1000
  {
    f := Function("f", Params(names, true), "");
    RequiredOf(names, true);
    AllNamed(names, f, args);
  }

  /** An overload with one optional parameter too many scores its required ones. */
  lemma RequiredInexact(names: seq<string>, extra: string, args: set<string>) returns (g: Function)
    requires (forall x :: x in names <==> x in args) && Distinct(names) && |names| == |args| && extra !in names
    ensures DistinctParams(g) && Satisfiable(g, args) && !ExactMatch(g, args) && Score(g, args) == |args|
  {
    g := Function("g", Params(names, false) + [Param(extra, "", true, false)], "");
    RequiredOf(names, false);
    assert g.params[..|names|] == Params(names, false);
    assert Required(g.params) == names;
    AllNamed(names, g, args);
  }

  lemma TooManyArguments(args: set<string>) returns (f: Function, g: Function)
    requires |args| >= 1000
    ensures DistinctParams(f) && DistinctParams(g) && Satisfiable(f, args) && Satisfiable(g, args)
    ensures ExactMatch(f, args) && !ExactMatch(g, args) && Score(f, args) <= Score(g, args)
  {
    var names := Enumerate(args);
    var extra := FreshText(names);
    f := OptionalExact(names, args);
    g := RequiredInexact(names, extra, args);
  }

  lemma AllNamed(names: seq<string>, f: Function, args: set<string>)
    requires (forall x :: x in names <==> x in args) && |names| <= |f.params|
    requires forall i :: 0 <= i < |names| ==> f.params[i].name == names[i]
    ensures forall a :: a in args ==> HasParam(f, a)
  {
    forall a | a in args ensures HasParam(f, a) {
      assert a in names;
      var i :| 0 <= i < |names| && names[i] == a;
      assert f.params[i].name == a;
    }
  }
}
