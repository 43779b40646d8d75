/**
The body comparison of the differential suite (conformance/compare.go): structural equality
of JSON values, arrays compared in order or, greedily, as multisets, numbers within a tolerance.
*/
module Comparator {
  import opened Json

  predicate Close(a: real, b: real, tol: real) {
    -tol <= a - b <= tol
  }

  predicate Equal(a: Json, b: Json, ordered: bool, tol: real)
    decreases a, 0, 0
  {
    match a
    case Obj(fa) =>
      b.Obj? && |fa| == |b.fields| && forall k :: k in fa ==> k in b.fields && Equal(fa[k], b.fields[k], ordered, tol)
    case Arr(xs) =>
      b.Arr? && |xs| == |b.elems| &&
      if ordered then forall i :: 0 <= i < |xs| ==> Equal(xs[i], b.elems[i], true, tol)
      else Greedy(xs, 0, b.elems, {}, tol)
    case Num(n) => b.Num? && Close(n, b.n, tol)
    case _ => a == b
  }

  /** The first unused element of `ys`, from `j` on, that equals `x`; the list's length if none does. */
  function FirstMatch(x: Json, ys: seq<Json>, used: set<nat>, j: nat, tol: real): (r: nat)
    requires j <= |ys|
    ensures j <= r <= |ys|
    decreases x, 1, |ys| - j
  {
    if j == |ys| then j
    else if j !in used && Equal(x, ys[j], false, tol) then j
    else FirstMatch(x, ys, used, j + 1, tol)
  }

  /** Greedy matching of `xs[i..]` against the elements of `ys` not in `used`. */
  predicate Greedy(xs: seq<Json>, i: nat, ys: seq<Json>, used: set<nat>, tol: real)
    requires i <= |xs|
    decreases xs, 2, |xs| - i
  {
    i == |xs| ||
    var j := FirstMatch(xs[i], ys, used, 0, tol);
    j < |ys| && Greedy(xs, i + 1, ys, used + {j}, tol)
  }

  lemma {:induction false} FirstMatchFinds(x: Json, ys: seq<Json>, used: set<nat>, j: nat, tol: real)
    requires j <= |ys|
    ensures var r := FirstMatch(x, ys, used, j, tol);
            && (r < |ys| ==> r !in used && Equal(x, ys[r], false, tol))
            && forall k :: j <= k < r ==> k in used || !Equal(x, ys[k], false, tol)
    decreases |ys| - j
  {
    if j < |ys| && !(j !in used && Equal(x, ys[j], false, tol)) {
      FirstMatchFinds(x, ys, used, j + 1, tol);
    }
  }

  // ----- pairings -----

  ghost predicate Injective(p: seq<nat>) {
    forall i, j :: 0 <= i < j < |p| ==> p[i] != p[j]
  }

  /** `p` pairs `xs[i..]` one to one with unused elements of `ys` that equal them. */
  ghost predicate Pairs(xs: seq<Json>, i: nat, ys: seq<Json>, used: set<nat>, tol: real, p: seq<nat>) {
    && i <= |xs| && |p| == |xs| - i && Injective(p)
    && forall k :: 0 <= k < |p| ==> p[k] < |ys| && p[k] !in used && Equal(xs[i + k], ys[p[k]], false, tol)
  }

  /** A bijection between two arrays of one length that pairs equal elements. */
  ghost predicate Bijection(xs: seq<Json>, ys: seq<Json>, tol: real, p: seq<nat>) {
    |xs| == |ys| && Pairs(xs, 0, ys, {}, tol, p)
  }

  /** At any tolerance, a greedy success yields a pairing. */
  lemma {:induction false} GreedySound(xs: seq<Json>, i: nat, ys: seq<Json>, used: set<nat>, tol: real)
    returns (p: seq<nat>)
    requires i <= |xs| && Greedy(xs, i, ys, used, tol)
    ensures Pairs(xs, i, ys, used, tol, p)
    decreases |xs| - i
  {
    if i == |xs| {
      p := [];
    } else {
      var j := FirstMatch(xs[i], ys, used, 0, tol);
      FirstMatchFinds(xs[i], ys, used, 0, tol);
      var rest := GreedySound(xs, i + 1, ys, used + {j}, tol);
      p := [j] + rest;
      forall k | 1 <= k < |p|
        ensures p[k] < |ys| && p[k] !in used && p[k] != j && Equal(xs[i + k], ys[p[k]], false, tol)
      {
        assert p[k] == rest[k - 1];
        assert xs[i + 1 + (k - 1)] == xs[i + k];
      }
    }
  }

  // ----- depth -----

  ghost predicate Within(j: Json, n: nat) {
    match j
    case Arr(es) => n > 0 && forall i :: 0 <= i < |es| ==> Within(es[i], n - 1)
    case Obj(m) => n > 0 && forall k :: k in m ==> Within(m[k], n - 1)
    case _ => true
  }

  lemma {:induction false} WithinMonotone(j: Json, n: nat, m: nat)
    requires Within(j, n) && n <= m
    ensures Within(j, m)
    decreases n
  {
    match j
    case Arr(es) =>
      forall i | 0 <= i < |es| ensures Within(es[i], m - 1) { WithinMonotone(es[i], n - 1, m - 1); }
    case Obj(f) =>
      forall k | k in f ensures Within(f[k], m - 1) { WithinMonotone(f[k], n - 1, m - 1); }
    case _ =>
  }

  lemma {:induction false} EveryValueHasDepth(j: Json) returns (n: nat)
    ensures Within(j, n)
    decreases j, 1
  {
    match j
    case Arr(es) =>
      n := 0;
      for i := 0 to |es|
        invariant forall k :: 0 <= k < i ==> Within(es[k], n)
      {
        var d := EveryValueHasDepth(es[i]);
        var m := if d > n then d else n;
        forall k | 0 <= k < i ensures Within(es[k], m) { WithinMonotone(es[k], n, m); }
        WithinMonotone(es[i], d, m);
        n := m;
      }
      n := n + 1;
    case Obj(f) =>
      n := 0;
      var todo := f.Keys;
      while todo != {}
        invariant todo <= f.Keys
        invariant forall k :: k in f && k !in todo ==> Within(f[k], n)
        decreases todo
      {
        var key :| key in todo;
        var d := EveryValueHasDepth(f[key]);
        var m := if d > n then d else n;
        forall k | k in f && k !in todo ensures Within(f[k], m) { WithinMonotone(f[k], n, m); }
        WithinMonotone(f[key], d, m);
        n := m;
        todo := todo - {key};
      }
      n := n + 1;
    case _ => n := 0;
  }

  // ----- without slack the comparison is an equivalence and greed is exact -----

  lemma {:induction false} Symmetric(n: nat, a: Json, b: Json, ordered: bool, tol: real)
    requires tol <= 0.0 && Within(a, n) && Within(b, n) && Equal(a, b, ordered, tol)
    ensures Equal(b, a, ordered, tol)
    decreases n, 0, 0
  {
    match a
    case Obj(fa) =>
      SameKeys(fa, b.fields);
      forall k | k in b.fields ensures Equal(b.fields[k], fa[k], ordered, tol) {
        Symmetric(n - 1, fa[k], b.fields[k], ordered, tol);
      }
    case Arr(xs) =>
      var ys := b.elems;
      if ordered {
        forall i | 0 <= i < |xs| ensures Equal(ys[i], xs[i], true, tol) { Symmetric(n - 1, xs[i], ys[i], true, tol); }
      } else {
        var p := GreedySound(xs, 0, ys, {}, tol);
        var q := Inverse(p);
        forall k | 0 <= k < |q| ensures Equal(ys[k], xs[q[k]], false, tol) {
          assert Equal(xs[0 + q[k]], ys[p[q[k]]], false, tol);
          Symmetric(n - 1, xs[q[k]], ys[k], false, tol);
        }
        GreedyComplete(n - 1, ys, 0, xs, {}, tol, q);
      }
    case _ =>
  }

  lemma {:induction false} Transitive(n: nat, a: Json, b: Json, c: Json, ordered: bool, tol: real)
    requires tol <= 0.0 && Within(a, n) && Within(b, n) && Within(c, n)
    requires Equal(a, b, ordered, tol) && Equal(b, c, ordered, tol)
    ensures Equal(a, c, ordered, tol)
    decreases n, 1, 0
  {
    if a.Obj? {
      TransitiveObjects(n, a, b, c, ordered, tol);
    } else if a.Arr? {
      TransitiveArrays(n, a, b, c, ordered, tol);
    }
  }

  lemma {:induction false} TransitiveObjects(n: nat, a: Json, b: Json, c: Json, ordered: bool, tol: real)
    requires a.Obj? && tol <= 0.0 && Within(a, n) && Within(b, n) && Within(c, n)
    requires Equal(a, b, ordered, tol) && Equal(b, c, ordered, tol)
    ensures Equal(a, c, ordered, tol)
    decreases n, 0, 0
  {
    var fa, fb, fc := a.fields, b.fields, c.fields;
    forall k | k in fa ensures k in fc && Equal(fa[k], fc[k], ordered, tol) {
      Transitive(n - 1, fa[k], fb[k], fc[k], ordered, tol);
    }
  }

  lemma {:induction false} TransitiveArrays(n: nat, a: Json, b: Json, c: Json, ordered: bool, tol: real)
    requires a.Arr? && tol <= 0.0 && Within(a, n) && Within(b, n) && Within(c, n)
    requires Equal(a, b, ordered, tol) && Equal(b, c, ordered, tol)
    ensures Equal(a, c, ordered, tol)
    decreases n, 0, 0
  {
    var xs, ys, zs := a.elems, b.elems, c.elems;
    if ordered {
      forall i | 0 <= i < |xs| ensures Equal(xs[i], zs[i], true, tol) {
        Transitive(n - 1, xs[i], ys[i], zs[i], true, tol);
      }
    } else {
      var p := GreedySound(xs, 0, ys, {}, tol);
      var q := GreedySound(ys, 0, zs, {}, tol);
      var r := Compose(n - 1, xs, ys, zs, tol, p, q);
      GreedyComplete(n - 1, xs, 0, zs, {}, tol, r);
    }
  }

  lemma {:induction false} Compose(n: nat, xs: seq<Json>, ys: seq<Json>, zs: seq<Json>, tol: real, p: seq<nat>,
                                   q: seq<nat>)
    returns (r: seq<nat>)
    requires tol <= 0.0 && Bijection(xs, ys, tol, p) && Bijection(ys, zs, tol, q)
    requires forall k :: 0 <= k < |xs| ==> Within(xs[k], n) && Within(ys[k], n) && Within(zs[k], n)
    ensures Bijection(xs, zs, tol, r)
    decreases n, 2, 0
  {
    r := seq(|p|, i requires 0 <= i < |p| => q[p[i]]);
    forall k | 0 <= k < |r|
      ensures r[k] < |zs| && Equal(xs[0 + k], zs[r[k]], false, tol)
    {
      assert Equal(xs[0 + k], ys[p[k]], false, tol) && Equal(ys[0 + p[k]], zs[q[p[k]]], false, tol);
      Transitive(n, xs[k], ys[p[k]], zs[r[k]], false, tol);
    }
  }

  /** Two elements equal to `u` are interchangeable. */
  lemma {:induction false} HandOver(n: nat, x: Json, y: Json, u: Json, w: Json, tol: real)
    requires tol <= 0.0 && Within(x, n) && Within(y, n) && Within(u, n) && Within(w, n)
    requires Equal(x, u, false, tol) && Equal(y, u, false, tol) && Equal(x, w, false, tol)
    ensures Equal(y, w, false, tol)
    decreases n, 2, 0
  {
    Symmetric(n, x, u, false, tol);
    Transitive(n, y, u, x, false, tol);
    Transitive(n, y, x, w, false, tol);
  }

  /** If `x` takes the element `j` that a later element wanted, that one can take the element paired with `x`. */
  lemma {:induction false} Reassign(n: nat, xs: seq<Json>, i: nat, ys: seq<Json>, used: set<nat>, tol: real,
                                    p: seq<nat>, j: nat)
    returns (q: seq<nat>)
    requires tol <= 0.0 && i < |xs| && Pairs(xs, i, ys, used, tol, p)
    requires forall k :: 0 <= k < |xs| ==> Within(xs[k], n)
    requires forall k :: 0 <= k < |ys| ==> Within(ys[k], n)
    requires j < |ys| && j !in used && Equal(xs[i], ys[j], false, tol)
    ensures Pairs(xs, i + 1, ys, used + {j}, tol, q)
    decreases n, 3, 0
  {
    assert Equal(xs[i + 0], ys[p[0]], false, tol);
    q := p[1..];
    assert forall k :: 0 <= k < |q| ==> q[k] == p[k + 1] && xs[(i + 1) + k] == xs[i + (k + 1)];
    if m :| 0 <= m < |q| && q[m] == j {
      var y := xs[i + 1 + m];
      assert Equal(xs[i + (m + 1)], ys[p[m + 1]], false, tol);
      HandOver(n, xs[i], y, ys[j], ys[p[0]], tol);
      q := q[m := p[0]];
    }
  }

  /** With no slack, greed never takes an element that a pairing cannot spare. */
  lemma {:induction false} GreedyComplete(n: nat, xs: seq<Json>, i: nat, ys: seq<Json>, used: set<nat>, tol: real,
                                          p: seq<nat>)
    requires tol <= 0.0 && Pairs(xs, i, ys, used, tol, p)
    requires forall k :: 0 <= k < |xs| ==> Within(xs[k], n)
    requires forall k :: 0 <= k < |ys| ==> Within(ys[k], n)
    ensures Greedy(xs, i, ys, used, tol)
    decreases n, 4, |xs| - i
  {
    if i < |xs| {
      var x := xs[i];
      var j := FirstMatch(x, ys, used, 0, tol);
      FirstMatchFinds(x, ys, used, 0, tol);
      assert Equal(xs[i + 0], ys[p[0]], false, tol);
      assert j < |ys|;
      var q := Reassign(n, xs, i, ys, used, tol, p, j);
      GreedyComplete(n, xs, i + 1, ys, used + {j}, tol, q);
    }
  }

  lemma SameKeys(a: map<string, Json>, b: map<string, Json>)
    requires |a| == |b| && forall k :: k in a ==> k in b
    ensures a.Keys == b.Keys
  {
    SubsetOfSameSize(a.Keys, b.Keys);
  }

  lemma {:induction false} SubsetOfSameSize<T>(a: set<T>, b: set<T>)
    requires a <= b && |a| == |b|
    ensures a == b
  {
    if x :| x in b && x !in a {
      SubsetSize(a, b - {x});
      assert false;
    }
  }

  lemma {:induction false} SubsetSize<T>(a: set<T>, b: set<T>)
    requires a <= b
    ensures |a| <= |b|
  {
    if x :| x in a {
      SubsetSize(a - {x}, b - {x});
    }
  }

  ghost function Range(n: nat): (s: set<nat>)
    ensures |s| == n && forall i :: i in s <==> 0 <= i < n
  {
    if n == 0 then {} else Range(n - 1) + {n - 1}
  }

  lemma {:induction false} ImageSize(p: seq<nat>)
    requires Injective(p)
    ensures |set i | 0 <= i < |p| :: p[i]| == |p|
  {
    if p != [] {
      var q, last := p[..|p| - 1], p[|p| - 1];
      ImageSize(q);
      assert (set i | 0 <= i < |p| :: p[i]) == (set i | 0 <= i < |q| :: q[i]) + {last};
    }
  }

  /** An injection of `0..n` into itself has an inverse. */
  lemma Inverse(p: seq<nat>) returns (q: seq<nat>)
    requires Injective(p) && forall k :: 0 <= k < |p| ==> p[k] < |p|
    ensures |q| == |p| && Injective(q)
    ensures forall k :: 0 <= k < |q| ==> q[k] < |p| && p[q[k]] == k
  {
    var image := set i | 0 <= i < |p| :: p[i];
    ImageSize(p);
    SubsetOfSameSize(image, Range(|p|));
    assert forall k :: 0 <= k < |p| ==> k in image;
    q := [];
    while |q| < |p|
      invariant |q| <= |p|
      invariant forall k :: 0 <= k < |q| ==> q[k] < |p| && p[q[k]] == k
    {
      assert |q| in image;
      var i :| 0 <= i < |p| && p[i] == |q|;
      q := q + [i];
    }
  }

  lemma {:induction false} Reflexive(a: Json, ordered: bool, tol: real)
    requires tol >= 0.0
    ensures Equal(a, a, ordered, tol)
    decreases a, 1, 0
  {
    match a
    case Obj(f) => forall k | k in f ensures Equal(f[k], f[k], ordered, tol) { Reflexive(f[k], ordered, tol); }
    case Arr(xs) =>
      forall i | 0 <= i < |xs| ensures Equal(xs[i], xs[i], ordered, tol) { Reflexive(xs[i], ordered, tol); }
      if !ordered {
        GreedyOnItself(xs, 0, {}, tol);
      }
    case _ =>
  }

  lemma {:induction false} GreedyOnItself(xs: seq<Json>, i: nat, used: set<nat>, tol: real)
    requires i <= |xs| && forall k :: 0 <= k < |xs| ==> Equal(xs[k], xs[k], false, tol)
    requires forall k :: k in used <==> 0 <= k < i
    ensures Greedy(xs, i, xs, used, tol)
    decreases |xs| - i
  {
    if i < |xs| {
      FirstMatchFinds(xs[i], xs, used, 0, tol);
      assert FirstMatch(xs[i], xs, used, 0, tol) == i;
      GreedyOnItself(xs, i + 1, used + {i}, tol);
    }
  }

  // ----- the results -----

  lemma CommonDepth(a: Json, b: Json, c: Json) returns (n: nat)
    ensures Within(a, n) && Within(b, n) && Within(c, n)
  {
    var i := EveryValueHasDepth(a);
    var j := EveryValueHasDepth(b);
    var k := EveryValueHasDepth(c);
    n := i + j + k;
    WithinMonotone(a, i, n);
    WithinMonotone(b, j, n);
    WithinMonotone(c, k, n);
  }

  /** At tolerance 0, ordered or not, the comparison is an equivalence relation on all values. */
  lemma EqualIsEquivalence(a: Json, b: Json, c: Json, ordered: bool)
    ensures Equal(a, a, ordered, 0.0)
    ensures Equal(a, b, ordered, 0.0) ==> Equal(b, a, ordered, 0.0)
    ensures Equal(a, b, ordered, 0.0) && Equal(b, c, ordered, 0.0) ==> Equal(a, c, ordered, 0.0)
  {
    var n := CommonDepth(a, b, c);
    Reflexive(a, ordered, 0.0);
    if Equal(a, b, ordered, 0.0) {
      Symmetric(n, a, b, ordered, 0.0);
      if Equal(b, c, ordered, 0.0) {
        Transitive(n, a, b, c, ordered, 0.0);
      }
    }
  }

  /** With no slack the greedy answer is exact. */
  lemma GreedyExact(xs: seq<Json>, ys: seq<Json>, tol: real)
    requires tol <= 0.0 && |xs| == |ys|
    ensures Greedy(xs, 0, ys, {}, tol) <==> exists p :: Bijection(xs, ys, tol, p)
  {
    if Greedy(xs, 0, ys, {}, tol) {
      var p := GreedySound(xs, 0, ys, {}, tol);
      assert Bijection(xs, ys, tol, p);
    }
    if p :| Bijection(xs, ys, tol, p) {
      var n := EveryValueHasDepth(Arr(xs + ys));
      assert forall k :: 0 <= k < |xs| ==> (xs + ys)[k] == xs[k];
      assert forall k :: 0 <= k < |ys| ==> (xs + ys)[|xs| + k] == ys[k];
      GreedyComplete(n - 1, xs, 0, ys, {}, tol, p);
    }
  }

  ghost predicate GreedIsExact(tol: real) {
    forall xs: seq<Json>, ys: seq<Json> :: |xs| == |ys| ==>
      (Greedy(xs, 0, ys, {}, tol) <==> exists p :: Bijection(xs, ys, tol, p))
  }

  /** Greed decides every pair of arrays exactly when the tolerance gives no slack. */
  lemma GreedIsExactIffNoSlack(tol: real)
    ensures GreedIsExact(tol) <==> tol <= 0.0
  {
    if tol <= 0.0 {
      forall xs: seq<Json>, ys: seq<Json> | |xs| == |ys|
        ensures Greedy(xs, 0, ys, {}, tol) <==> exists p :: Bijection(xs, ys, tol, p)
      {
        GreedyExact(xs, ys, tol);
      }
    } else {
      var xs, ys := [Num(tol), Num(0.0)], [Num(tol / 2.0), Num(2.0 * tol)];
      var p: seq<nat> := [1, 0];
      assert Equal(xs[0], ys[0], false, tol) && FirstMatch(xs[0], ys, {}, 0, tol) == 0;
      assert !Equal(xs[1], ys[1], false, tol);
      FirstMatchFinds(xs[1], ys, {0}, 0, tol);
      assert FirstMatch(xs[1], ys, {0}, 0, tol) == 2;
      assert {} + {0} == {0} && !Greedy(xs, 1, ys, {0}, tol);
      assert Equal(xs[0], ys[p[0]], false, tol) && Equal(xs[1], ys[p[1]], false, tol);
      assert Bijection(xs, ys, tol, p);
    }
  }

  /** Without slack, and in order, the comparison is equality of values. */
  lemma {:induction false} OrderedIsEquality(a: Json, b: Json)
    ensures Equal(a, b, true, 0.0) <==> a == b
    decreases a
  {
    match a
    case Obj(fa) =>
      if b.Obj? {
        forall k | k in fa && k in b.fields ensures Equal(fa[k], b.fields[k], true, 0.0) <==> fa[k] == b.fields[k] {
          OrderedIsEquality(fa[k], b.fields[k]);
        }
        if Equal(a, b, true, 0.0) {
          SameKeys(fa, b.fields);
          assert fa == b.fields;
        }
      }
    case Arr(xs) =>
      if b.Arr? && |xs| == |b.elems| {
        forall i | 0 <= i < |xs| ensures Equal(xs[i], b.elems[i], true, 0.0) <==> xs[i] == b.elems[i] {
          OrderedIsEquality(xs[i], b.elems[i]);
        }
      }
    case _ =>
  }

  /**
  Without slack, and in any order: arrays are equal when some bijection pairs equal elements, objects when they have the
  same members and those are equal, and everything else when it is identical.
  */
  lemma UnorderedMeans(a: Json, b: Json)
    ensures Equal(a, b, false, 0.0) <==>
            match (a, b)
            case (Arr(xs), Arr(ys)) => exists p :: Bijection(xs, ys, 0.0, p)
            case (Obj(fa), Obj(fb)) => fa.Keys == fb.Keys && forall k :: k in fa ==> Equal(fa[k], fb[k], false, 0.0)
            case _ => a == b
  {
    if a.Arr? && b.Arr? && |a.elems| == |b.elems| {
      GreedyExact(a.elems, b.elems, 0.0);
    }
    if a.Obj? && b.Obj? {
      if Equal(a, b, false, 0.0) {
        SameKeys(a.fields, b.fields);
      }
      if a.fields.Keys == b.fields.Keys {
        assert |a.fields| == |a.fields.Keys| && |b.fields| == |b.fields.Keys|;
      }
    }
  }

  // ----- the source's loops -----

  /** The `used` flags of the source, as the set of positions already taken. */
  ghost function Taken(used: seq<bool>): set<nat> {
    set j | 0 <= j < |used| && used[j]
  }

  method MultisetEqual(a: seq<Json>, b: seq<Json>, tol: real) returns (r: bool)
    ensures r == Greedy(a, 0, b, {}, tol)
    decreases a, 2, 0
  {
    var used := new bool[|b|](_ => false);
    assert Taken(used[..]) == {};
    for i := 0 to |a|
      invariant Greedy(a, 0, b, {}, tol) == Greedy(a, i, b, Taken(used[..]), tol)
    {
      ghost var taken := Taken(used[..]);
      var j := 0;
      while j < |b|
        invariant j <= |b| && Taken(used[..]) == taken
        invariant FirstMatch(a[i], b, taken, j, tol) == FirstMatch(a[i], b, taken, 0, tol)
      {
        if !used[j] {
          var same := EqualJson(a[i], b[j], false, tol);
          if same {
            break;
          }
        }
        j := j + 1;
      }
      if j == |b| {
        return false;
      }
      used[j] := true;
      assert Taken(used[..]) == taken + {j};
    }
    r := true;
  }

  method EqualJson(a: Json, b: Json, ordered: bool, tol: real) returns (r: bool)
    ensures r == Equal(a, b, ordered, tol)
    decreases a, 0, 0
  {
    match a {
      case Obj(fa) =>
        if !b.Obj? || |fa| != |b.fields| {
          return false;
        }
        var todo := fa.Keys;
        while todo != {}
          invariant todo <= fa.Keys
          invariant forall k :: k in fa && k !in todo ==> k in b.fields && Equal(fa[k], b.fields[k], ordered, tol)
          decreases todo
        {
          var k :| k in todo;
          if k !in b.fields {
            return false;
          }
          var same := EqualJson(fa[k], b.fields[k], ordered, tol);
          if !same {
            return false;
          }
          todo := todo - {k};
        }
        return true;
      case Arr(xs) =>
        if !b.Arr? || |xs| != |b.elems| {
          return false;
        }
        if !ordered {
          r := MultisetEqual(xs, b.elems, tol);
          return;
        }
        for i := 0 to |xs|
          invariant forall k :: 0 <= k < i ==> Equal(xs[k], b.elems[k], true, tol)
        {
          var same := EqualJson(xs[i], b.elems[i], ordered, tol);
          if !same {
            return false;
          }
        }
        return true;
      case Num(n) => return b.Num? && Close(n, b.n, tol);
      case _ => return a == b;
    }
  }
}
