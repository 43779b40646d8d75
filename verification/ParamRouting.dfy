/**
Routing query parameters down the embed tree (ir/parse.go, applyParams and findEmbed). A key rel.rest
whose head names an embed of this level belongs to that embed's own query; any other key applies here.

What one level makes of its own parameters is the function `fill`. Go's map iteration order is arbitrary, so the
loops pick keys nondeterministically.
*/
module ParamRouting {
  import opened Wrappers
  import opened Strings
  import opened Lexer

  type Values = map<string, seq<string>>

  datatype Embed = Embed(outKey: string, embeds: seq<Embed>)

  /** A level of the query after routing: the parameters that reached it, what they gave, and its embeds. */
  datatype Level<L> = Level(params: Values, filled: Option<L>, embeds: seq<Level<L>>)

  // ----- one key at one level -----

  /** The first embed of a name, or the number of embeds. */
  function FindEmbed(embeds: seq<Embed>, name: string): (i: nat)
    ensures i <= |embeds|
    ensures i < |embeds| ==> embeds[i].outKey == name
    ensures forall j :: 0 <= j < i ==> embeds[j].outKey != name
  {
    FindFrom(embeds, name, 0)
  }

  function FindFrom(embeds: seq<Embed>, name: string, from: nat): (i: nat)
    requires from <= |embeds|
    ensures from <= i <= |embeds|
    ensures i < |embeds| ==> embeds[i].outKey == name
    ensures forall j :: from <= j < i ==> embeds[j].outKey != name
    decreases |embeds| - from
  {
    if from == |embeds| || embeds[from].outKey == name then from else FindFrom(embeds, name, from + 1)
  }

  /** The embed a key is addressed to, or None when the key applies at this level. */
  function Target(embeds: seq<Embed>, key: string): (t: Option<nat>)
    ensures t.Some? ==> t.value < |embeds| && CutAt(key, '.', Plain) < |key|
  {
    var i := CutAt(key, '.', Plain);
    if i < |key| && FindEmbed(embeds, key[..i]) < |embeds| then Some(FindEmbed(embeds, key[..i])) else None
  }

  /** A plain name and a dot address the first embed of that name; without one, or without a dot, a key stays. */
  lemma TargetByName(embeds: seq<Embed>, name: string, rest: string)
    requires '.' !in name && '"' !in name
    ensures Target(embeds, name).None?
    ensures var t := Target(embeds, name + "." + rest);
            if t.None? then forall i :: 0 <= i < |embeds| ==> embeds[i].outKey != name
            else embeds[t.value].outKey == name && (forall i :: 0 <= i < t.value ==> embeds[i].outKey != name)
  {
    CutPlain(name, "");
    CutPlain(name, "." + rest);
    assert name + "" == name;
    var key := name + ("." + rest);
    assert name + "." + rest == key && key[..|name|] == name;
  }

  lemma {:induction false} CutPlain(name: string, after: string)
    requires '.' !in name && '"' !in name
    ensures CutAt(name + after, '.', Plain) == |name| + CutAt(after, '.', Plain)
  {
    if name == [] {
      assert name + after == after;
    } else {
      assert (name + after)[1..] == name[1..] + after;
      CutPlain(name[1..], after);
    }
  }

  function Rest(key: string): string
    requires CutAt(key, '.', Plain) < |key|
  {
    key[CutAt(key, '.', Plain) + 1..]
  }

  function Prefixed(embeds: seq<Embed>, i: nat, rest: string): string
    requires i < |embeds|
  {
    embeds[i].outKey + "." + rest
  }

  /** Nothing of a key is lost: it is its embed's name, a dot, and what is passed on. */
  lemma KeyIsPrefixed(embeds: seq<Embed>, key: string)
    requires Target(embeds, key).Some?
    ensures key == Prefixed(embeds, Target(embeds, key).value, Rest(key))
  {
    var i := CutAt(key, '.', Plain);
    assert key == key[..i] + [key[i]] + key[i + 1..];
  }

  // ----- where every key goes -----

  /** The parameters that stay at this level. */
  function Own(embeds: seq<Embed>, vals: Values): Values {
    map key | key in vals && key != "select" && Target(embeds, key).None? :: vals[key]
  }

  predicate Passes(embeds: seq<Embed>, i: nat, vals: Values, key: string) {
    key in vals && key != "select" && Target(embeds, key) == Some(i)
  }

  /** Some key of `vals` reaches embed `i` as `rest`; that key is the embed's name, a dot and `rest`. */
  predicate Reaches(embeds: seq<Embed>, i: nat, vals: Values, rest: string)
    requires i < |embeds|
  {
    var key := Prefixed(embeds, i, rest);
    Passes(embeds, i, vals, key) && Rest(key) == rest
  }

  lemma PassesReaches(embeds: seq<Embed>, i: nat, vals: Values, key: string)
    requires i < |embeds| && Passes(embeds, i, vals, key)
    ensures Prefixed(embeds, i, Rest(key)) == key && Reaches(embeds, i, vals, Rest(key))
  {
    KeyIsPrefixed(embeds, key);
  }

  /** What remains of the keys that reach embed `i`. */
  function Rests(embeds: seq<Embed>, i: nat, vals: Values): (r: set<string>)
    requires i < |embeds|
    ensures forall rest :: rest in r ==> Reaches(embeds, i, vals, rest)
  {
    assert forall key :: key in vals && Passes(embeds, i, vals, key) ==> Reaches(embeds, i, vals, Rest(key)) by {
      forall key | key in vals && Passes(embeds, i, vals, key) ensures Reaches(embeds, i, vals, Rest(key)) {
        PassesReaches(embeds, i, vals, key);
      }
    }
    set key | key in vals && Passes(embeds, i, vals, key) :: Rest(key)
  }

  /** The parameters passed on to embed `i`, under what remains of their keys. */
  function Passed(embeds: seq<Embed>, i: nat, vals: Values): (r: Values)
    requires i < |embeds|
  {
    map rest | rest in Rests(embeds, i, vals) :: vals[Prefixed(embeds, i, rest)]
  }

  lemma PassedAt(embeds: seq<Embed>, i: nat, vals: Values, rest: string)
    requires i < |embeds|
    ensures rest in Passed(embeds, i, vals) <==> Reaches(embeds, i, vals, rest)
    ensures rest in Passed(embeds, i, vals) ==> Passed(embeds, i, vals)[rest] == vals[Prefixed(embeds, i, rest)]
  {
    if Reaches(embeds, i, vals, rest) {
      var key := Prefixed(embeds, i, rest);
      assert key in vals && Passes(embeds, i, vals, key) && Rest(key) == rest;
    }
  }

  /** The levels of an embed no parameter reached. */
  function Untouched<L>(e: Embed): Level<L> {
    Level(map[], None, seq(|e.embeds|, i requires 0 <= i < |e.embeds| => Untouched(e.embeds[i])))
  }

  /** Every level that some parameter reached can make sense of its own. */
  ghost predicate Fillable<L, E>(fill: Values -> Result<L, E>, embeds: seq<Embed>, vals: Values)
    decreases embeds
  {
    && fill(Own(embeds, vals)).Ok?
    && forall i :: 0 <= i < |embeds| ==> FillableAt(fill, embeds, vals, i)
  }

  ghost predicate FillableAt<L, E>(fill: Values -> Result<L, E>, embeds: seq<Embed>, vals: Values, i: nat)
    requires i < |embeds|
    decreases embeds[i]
  {
    Passed(embeds, i, vals) == map[] || Fillable(fill, embeds[i].embeds, Passed(embeds, i, vals))
  }

  /** The levels that routing `vals` gives. */
  ghost function Routed<L, E>(fill: Values -> Result<L, E>, embeds: seq<Embed>, vals: Values): (r: Level<L>)
    requires Fillable(fill, embeds, vals)
    ensures |r.embeds| == |embeds|
    decreases embeds
  {
    Level(Own(embeds, vals), Some(fill(Own(embeds, vals)).value),
          seq(|embeds|, i requires 0 <= i < |embeds| && FillableAt(fill, embeds, vals, i) =>
            RoutedAt(fill, embeds, vals, i)))
  }

  ghost function RoutedAt<L, E>(fill: Values -> Result<L, E>, embeds: seq<Embed>, vals: Values, i: nat): Level<L>
    requires i < |embeds| && FillableAt(fill, embeds, vals, i)
    decreases embeds[i]
  {
    if Passed(embeds, i, vals) == map[] then Untouched(embeds[i])
    else Routed(fill, embeds[i].embeds, Passed(embeds, i, vals))
  }

  // ----- conservation -----

  /** The level a key belongs to, by following embed names until none matches, and what remains of it there. */
  function Follow(embeds: seq<Embed>, key: string): (seq<nat>, string)
    decreases |key|
  {
    if key == "select" || Target(embeds, key).None? then ([], key)
    else
      var i := Target(embeds, key).value;
      var (path, rest) := Follow(embeds[i].embeds, Rest(key));
      ([i] + path, rest)
  }

  function ParamsAt<L>(level: Level<L>, path: seq<nat>): Values {
    if path == [] then level.params
    else if path[0] < |level.embeds| then ParamsAt(level.embeds[path[0]], path[1..])
    else map[]
  }

  lemma {:induction false} FollowInjective(embeds: seq<Embed>, a: string, b: string)
    requires Follow(embeds, a) == Follow(embeds, b)
    ensures a == b
    decreases |a|
  {
    var stop := a == "select" || Target(embeds, a).None?;
    assert stop <==> Follow(embeds, a).0 == [];
    if !stop {
      var i := Follow(embeds, a).0[0];
      assert Target(embeds, a) == Some(i) && Target(embeds, b) == Some(i);
      KeyIsPrefixed(embeds, a);
      KeyIsPrefixed(embeds, b);
      var fa, fb := Follow(embeds[i].embeds, Rest(a)), Follow(embeds[i].embeds, Rest(b));
      assert ([i] + fa.0)[1..] == fa.0 && ([i] + fb.0)[1..] == fb.0;
      FollowInjective(embeds[i].embeds, Rest(a), Rest(b));
    }
  }

  /** Every key that does not end in `select` is delivered, with its values, to the level it belongs to. */
  lemma {:induction false} Delivered<L, E>(fill: Values -> Result<L, E>, embeds: seq<Embed>, vals: Values, key: string)
    requires Fillable(fill, embeds, vals) && key in vals && Follow(embeds, key).1 != "select"
    ensures var (path, rest) := Follow(embeds, key);
            rest in ParamsAt(Routed(fill, embeds, vals), path) &&
                ParamsAt(Routed(fill, embeds, vals), path)[rest] == vals[key]
    decreases |key|
  {
    if Target(embeds, key).Some? {
      var i := Target(embeds, key).value;
      var passed := Passed(embeds, i, vals);
      PassesReaches(embeds, i, vals, key);
      PassedAt(embeds, i, vals, Rest(key));
      assert FillableAt(fill, embeds, vals, i);
      assert Rest(key) in passed;
      Delivered(fill, embeds[i].embeds, passed, Rest(key));
      var (path, rest) := Follow(embeds[i].embeds, Rest(key));
      assert ([i] + path)[1..] == path;
      assert Routed(fill, embeds, vals).embeds[i] == Routed(fill, embeds[i].embeds, passed);
    }
  }

  lemma {:induction false} UntouchedIsEmpty<L>(e: Embed, path: seq<nat>)
    ensures ParamsAt<L>(Untouched(e), path) == map[]
    decreases path
  {
    if path != [] && path[0] < |e.embeds| {
      UntouchedIsEmpty<L>(e.embeds[path[0]], path[1..]);
    }
  }

  /** Every parameter at a level came from a key that belongs there. */
  lemma {:induction false} Origin<L, E>(fill: Values -> Result<L, E>, embeds: seq<Embed>, vals: Values, path: seq<nat>,
                                        rest: string)
    returns (key: string)
    requires Fillable(fill, embeds, vals) && rest in ParamsAt(Routed(fill, embeds, vals), path)
    ensures rest != "select" && key in vals && Follow(embeds, key) == (path, rest)
    decreases path
  {
    if path == [] {
      key := rest;
    } else {
      var i := path[0];
      assert FillableAt(fill, embeds, vals, i);
      ReachedIsTouched(fill, embeds, vals, path, rest);
      var inner := Origin(fill, embeds[i].embeds, Passed(embeds, i, vals), path[1..], rest);
      key := LiftKey(embeds, i, vals, inner);
      assert [i] + path[1..] == path;
    }
  }

  /** What an embed is passed came from the same key with the embed's name in front. */
  lemma LiftKey(embeds: seq<Embed>, i: nat, vals: Values, inner: string) returns (key: string)
    requires i < |embeds| && inner in Passed(embeds, i, vals)
    ensures key in vals
    ensures Follow(embeds, key) == ([i] + Follow(embeds[i].embeds, inner).0, Follow(embeds[i].embeds, inner).1)
  {
    PassedAt(embeds, i, vals, inner);
    key := Prefixed(embeds, i, inner);
  }

  lemma ReachedIsTouched<L, E>(fill: Values -> Result<L, E>, embeds: seq<Embed>, vals: Values, path: seq<nat>,
                               rest: string)
    requires Fillable(fill, embeds, vals) && path != [] && rest in ParamsAt(Routed(fill, embeds, vals), path)
    ensures path[0] < |embeds| && Passed(embeds, path[0], vals) != map[]
    ensures Fillable(fill, embeds[path[0]].embeds, Passed(embeds, path[0], vals))
    ensures rest in ParamsAt(Routed(fill, embeds[path[0]].embeds, Passed(embeds, path[0], vals)), path[1..])
  {
    var i := path[0];
    assert FillableAt(fill, embeds, vals, i);
    var level := Routed(fill, embeds, vals).embeds[i];
    assert level == RoutedAt(fill, embeds, vals, i) && rest in ParamsAt(level, path[1..]);
    UntouchedIsEmpty<L>(embeds[i], path[1..]);
  }

  /**
  Conservation: a level holds a parameter exactly when some key belongs there and does not end in `select`,
  with that key's values, and no other key belongs there.
  */
  lemma ParamsConserved<L, E>(fill: Values -> Result<L, E>, embeds: seq<Embed>, vals: Values, path: seq<nat>,
                              rest: string)
    requires Fillable(fill, embeds, vals)
    ensures var at := ParamsAt(Routed(fill, embeds, vals), path);
            && (rest in at <==> rest != "select" && exists key :: key in vals && Follow(embeds, key) == (path, rest))
            && (rest in at ==> forall key :: key in vals && Follow(embeds, key) == (path, rest) ==>
                 at[rest] == vals[key])
    ensures forall a, b :: a in vals && b in vals && Follow(embeds, a) == Follow(embeds, b) ==> a == b
  {
    if rest in ParamsAt(Routed(fill, embeds, vals), path) {
      var key := Origin(fill, embeds, vals, path, rest);
    }
    if rest != "select" {
      forall key | key in vals && Follow(embeds, key) == (path, rest)
        ensures rest in ParamsAt(Routed(fill, embeds, vals), path) &&
                  ParamsAt(Routed(fill, embeds, vals), path)[rest] == vals[key]
      {
        Delivered(fill, embeds, vals, key);
      }
    }
    forall a, b | a in vals && b in vals && Follow(embeds, a) == Follow(embeds, b) ensures a == b {
      FollowInjective(embeds, a, b);
    }
  }

  // ----- the source's loops -----

  function Under(scoped: map<string, Values>, name: string): Values {
    if name in scoped then scoped[name] else map[]
  }

  ghost predicate SplitAt(embeds: seq<Embed>, vals: Values, scoped: map<string, Values>, i: nat)
    requires i < |embeds|
  {
    FindEmbed(embeds, embeds[i].outKey) == i ==> Passed(embeds, i, vals) == Under(scoped, embeds[i].outKey)
  }

  /** `scoped` holds, under each embed's name, exactly what `vals` passes to it. */
  ghost predicate SplitBy(embeds: seq<Embed>, vals: Values, scoped: map<string, Values>) {
    && (forall i :: 0 <= i < |embeds| ==> SplitAt(embeds, vals, scoped, i))
    && (forall name :: name in scoped ==> FindEmbed(embeds, name) < |embeds| && scoped[name] != map[])
  }

  lemma ReachesWith(embeds: seq<Embed>, vals: Values, key: string, v: seq<string>, i: nat, rest: string)
    requires i < |embeds| && key !in vals
    ensures Reaches(embeds, i, vals[key := v], rest) <==>
            || Reaches(embeds, i, vals, rest)
            || (key != "select" && Target(embeds, key) == Some(i) && rest == Rest(key))
  {
    if key != "select" && Target(embeds, key) == Some(i) {
      KeyIsPrefixed(embeds, key);
    }
  }

  /** One more key changes what its embed is passed by that key, and nothing else. */
  lemma PassedWith(embeds: seq<Embed>, vals: Values, key: string, v: seq<string>, i: nat)
    requires i < |embeds| && key !in vals
    ensures Passed(embeds, i, vals[key := v]) ==
            if key != "select" && Target(embeds, key) == Some(i) then Passed(embeds, i, vals)[Rest(key) := v]
                else Passed(embeds, i, vals)
  {
    var a, b := Passed(embeds, i, vals), Passed(embeds, i, vals[key := v]);
    var mine := key != "select" && Target(embeds, key) == Some(i);
    var want := if mine then a[Rest(key) := v] else a;
    forall rest
      ensures rest in b <==> rest in want
      ensures rest in b ==> b[rest] == want[rest]
    {
      PassedOneWith(embeds, vals, key, v, i, rest);
    }
    SameValues(b, want);
  }

  lemma SameValues(a: Values, b: Values)
    requires forall k :: k in a <==> k in b
    requires forall k :: k in a ==> a[k] == b[k]
    ensures a == b
  {
  }

  lemma PassedOneWith(embeds: seq<Embed>, vals: Values, key: string, v: seq<string>, i: nat, rest: string)
    requires i < |embeds| && key !in vals
    ensures var a, b := Passed(embeds, i, vals), Passed(embeds, i, vals[key := v]);
            var mine := key != "select" && Target(embeds, key) == Some(i) && rest == Rest(key);
            && (rest in b <==> mine || rest in a)
            && (rest in b ==> b[rest] == if mine then v else a[rest])
  {
    ReachesWith(embeds, vals, key, v, i, rest);
    PassedAt(embeds, i, vals, rest);
    PassedAt(embeds, i, vals[key := v], rest);
    if key != "select" && Target(embeds, key) == Some(i) {
      KeyIsPrefixed(embeds, key);
    }
  }

  lemma KeepOne(embeds: seq<Embed>, vals: Values, key: string, v: seq<string>, scoped: map<string, Values>)
    requires key !in vals && SplitBy(embeds, vals, scoped)
    requires key == "select" || Target(embeds, key).None?
    ensures SplitBy(embeds, vals[key := v], scoped)
    ensures Own(embeds, vals[key := v]) == if key == "select" then Own(embeds, vals) else Own(embeds, vals)[key := v]
  {
    var after := vals[key := v];
    forall i | 0 <= i < |embeds| ensures SplitAt(embeds, after, scoped, i) {
      assert SplitAt(embeds, vals, scoped, i);
      PassedWith(embeds, vals, key, v, i);
    }
  }

  lemma PassOne(embeds: seq<Embed>, vals: Values, key: string, v: seq<string>, scoped: map<string, Values>,
                head: string)
    requires key !in vals && SplitBy(embeds, vals, scoped) && key != "select" && Target(embeds, key).Some?
    requires head == key[..CutAt(key, '.', Plain)]
    ensures SplitBy(embeds, vals[key := v], scoped[head := Under(scoped, head)[Rest(key) := v]])
    ensures Own(embeds, vals[key := v]) == Own(embeds, vals)
  {
    var more := scoped[head := Under(scoped, head)[Rest(key) := v]];
    var after := vals[key := v];
    forall i | 0 <= i < |embeds| ensures SplitAt(embeds, after, more, i) {
      assert SplitAt(embeds, vals, scoped, i);
      PassOneAt(embeds, vals, key, v, scoped, head, i);
    }
    assert Rest(key) in more[head];
  }

  lemma PassOneAt(embeds: seq<Embed>, vals: Values, key: string, v: seq<string>, scoped: map<string, Values>,
                  head: string, i: nat)
    requires key !in vals && key != "select" && Target(embeds, key).Some? && i < |embeds| &&
               SplitAt(embeds, vals, scoped, i)
    requires head == key[..CutAt(key, '.', Plain)]
    ensures SplitAt(embeds, vals[key := v], scoped[head := Under(scoped, head)[Rest(key) := v]], i)
  {
    if FindEmbed(embeds, embeds[i].outKey) == i {
      PassedWith(embeds, vals, key, v, i);
      assert Target(embeds, key) == Some(i) <==> embeds[i].outKey == head;
    }
  }

  ghost predicate Parted(embeds: seq<Embed>, vals: Values, self: Values, scoped: map<string, Values>) {
    self == Own(embeds, vals) && SplitBy(embeds, vals, scoped)
  }

  /** Sends one more key where it belongs. */
  method Place(embeds: seq<Embed>, key: string, v: seq<string>, self: Values, scoped: map<string, Values>,
               ghost seen: Values)
    returns (self': Values, scoped': map<string, Values>)
    requires key !in seen && Parted(embeds, seen, self, scoped)
    ensures Parted(embeds, seen[key := v], self', scoped')
  {
    self', scoped' := self, scoped;
    if key == "select" {
      KeepOne(embeds, seen, key, v, scoped);
      return;
    }
    var head, rest, ok := CutIdentAware(key, '.');
    if ok && FindEmbed(embeds, head) < |embeds| {
      PassOne(embeds, seen, key, v, scoped, head);
      scoped' := scoped[head := Under(scoped, head)[rest := v]];
    } else {
      KeepOne(embeds, seen, key, v, scoped);
      self' := self[key := v];
    }
  }

  /** Splits the parameters between this level and, by name, its embeds, in whatever order the keys come. */
  method Partition(embeds: seq<Embed>, vals: Values) returns (self: Values, scoped: map<string, Values>)
    ensures self == Own(embeds, vals) && SplitBy(embeds, vals, scoped)
  {
    self, scoped := map[], map[];
    var todo := vals.Keys;
    ghost var seen: Values := map[];
    while todo != {}
      invariant todo <= vals.Keys && seen.Keys == vals.Keys - todo
      invariant forall k :: k in seen ==> seen[k] == vals[k]
      invariant Parted(embeds, seen, self, scoped)
      decreases todo
    {
      var key :| key in todo;
      todo := todo - {key};
      self, scoped := Place(embeds, key, vals[key], self, scoped, seen);
      seen := seen[key := vals[key]];
    }
    assert seen == vals;
  }

  /** An embed whose name an earlier one has is passed nothing. */
  lemma ShadowedIsUntouched(embeds: seq<Embed>, vals: Values, i: nat)
    requires i < |embeds| && FindEmbed(embeds, embeds[i].outKey) != i
    ensures Passed(embeds, i, vals) == map[]
  {
    forall rest ensures rest !in Passed(embeds, i, vals) { PassedAt(embeds, i, vals, rest); }
  }

  /** What the recursion has made of embed `i` while the names in `todo` are left. */
  ghost predicate Settled<L, E>(fill: Values -> Result<L, E>, embeds: seq<Embed>, vals: Values,
                                scoped: map<string, Values>, todo: set<string>, i: nat, level: Level<L>)
    requires i < |embeds|
  {
    var name := embeds[i].outKey;
    if FindEmbed(embeds, name) == i && name in scoped && name !in todo
    then FillableAt(fill, embeds, vals, i) && level == RoutedAt(fill, embeds, vals, i)
    else level == Untouched(embeds[i])
  }

  ghost predicate AllButSettled<L, E>(fill: Values -> Result<L, E>, embeds: seq<Embed>, vals: Values,
                                      scoped: map<string, Values>, todo: set<string>, levels: seq<Level<L>>)
  {
    |levels| == |embeds| && forall i :: 0 <= i < |embeds| ==> Settled(fill, embeds, vals, scoped, todo, i, levels[i])
  }

  lemma SettleOne<L, E>(fill: Values -> Result<L, E>, embeds: seq<Embed>, vals: Values, scoped: map<string, Values>,
                        todo: set<string>, i: nat, levels: seq<Level<L>>, level: Level<L>)
    requires AllButSettled(fill, embeds, vals, scoped, todo, levels) && i < |embeds|
    requires Settled(fill, embeds, vals, scoped, todo - {embeds[i].outKey}, i, level)
    requires FindEmbed(embeds, embeds[i].outKey) == i
    ensures AllButSettled(fill, embeds, vals, scoped, todo - {embeds[i].outKey}, levels[i := level])
  {
    var rest, more := todo - {embeds[i].outKey}, levels[i := level];
    forall k | 0 <= k < |embeds| ensures Settled(fill, embeds, vals, scoped, rest, k, more[k]) {
      assert Settled(fill, embeds, vals, scoped, todo, k, levels[k]);
    }
  }

  lemma AllSettled<L, E>(fill: Values -> Result<L, E>, embeds: seq<Embed>, vals: Values, scoped: map<string, Values>,
                         levels: seq<Level<L>>)
    requires SplitBy(embeds, vals, scoped) && fill(Own(embeds, vals)).Ok?
    requires AllButSettled(fill, embeds, vals, scoped, {}, levels)
    ensures Fillable(fill, embeds, vals) && Routed(fill, embeds, vals).embeds == levels
  {
    forall i | 0 <= i < |embeds|
      ensures FillableAt(fill, embeds, vals, i) && levels[i] == RoutedAt(fill, embeds, vals, i)
    {
      assert SplitAt(embeds, vals, scoped, i);
      assert Settled(fill, embeds, vals, scoped, {}, i, levels[i]);
      if FindEmbed(embeds, embeds[i].outKey) != i {
        ShadowedIsUntouched(embeds, vals, i);
      }
    }
  }

  /** Whatever order the keys and the embeds are visited in, a success is the one routing of the parameters. */
  method ApplyParams<L, E>(fill: Values -> Result<L, E>, embeds: seq<Embed>, vals: Values)
    returns (r: Result<Level<L>, E>)
    ensures r.Ok? <==> Fillable(fill, embeds, vals)
    ensures r.Ok? ==> r.value == Routed(fill, embeds, vals)
    decreases embeds
  {
    var self, scoped := Partition(embeds, vals);
    var own := fill(self);
    if own.Err? {
      return Err(own.error);
    }
    var levels: seq<Level<L>> := seq(|embeds|, i requires 0 <= i < |embeds| => Untouched(embeds[i]));
    var todo := scoped.Keys;
    while todo != {}
      invariant todo <= scoped.Keys && AllButSettled(fill, embeds, vals, scoped, todo, levels)
      decreases todo
    {
      var name :| name in todo;
      var i := FindEmbed(embeds, name);
      assert SplitAt(embeds, vals, scoped, i);
      var sub := ApplyParams(fill, embeds[i].embeds, scoped[name]);
      if sub.Err? {
        assert !FillableAt(fill, embeds, vals, i);
        return Err(sub.error);
      }
      SettleOne(fill, embeds, vals, scoped, todo, i, levels, sub.value);
      levels := levels[i := sub.value];
      todo := todo - {name};
    }
    AllSettled(fill, embeds, vals, scoped, levels);
    return Ok(Level(self, Some(own.value), levels));
  }
}
