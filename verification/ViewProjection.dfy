/**
Projecting base-table foreign keys onto views (schema/views.go): repeated passes over the views,
each adding the keys whose columns survive into the view, until a pass adds nothing.
*/
module ViewProjection {
  import opened Wrappers

  datatype ForeignKey = ForeignKey(
    name: string, columns: seq<string>, refSchema: string, refRelation: string, refColumns: seq<string>, source: string)

  datatype ViewColumn = ViewColumn(name: string, baseSchema: string, baseRelation: string, baseColumn: string)

  datatype Relation = Relation(schema: string, name: string, isView: bool, viewColumns: seq<ViewColumn>)

  type Keys = map<string, seq<ForeignKey>>

  function Key(schema: string, rel: string): string {
    if schema == "" then rel else schema + "." + rel
  }

  function BaseKey(vc: ViewColumn): string { Key(vc.baseSchema, vc.baseRelation) }

  // ----- one view and one base -----

  /** The first view column that exposes a column of a base. */
  function Exposing(cols: seq<ViewColumn>, base: string, col: string): Option<string> {
    if cols == [] then None
    else
      var before := Exposing(cols[..|cols| - 1], base, col);
      var vc := cols[|cols| - 1];
      if before.Some? then before
      else if BaseKey(vc) == base && vc.baseColumn == col then Some(vc.name)
      else None
  }

  /** A base's columns under the view's names; None unless every one survives into the view. */
  function MapColumns(cols: seq<string>, view: Relation, base: string): (r: Option<seq<string>>)
    ensures r.Some? ==> |r.value| == |cols|
  {
    if cols == [] then Some([])
    else
      var init := MapColumns(cols[..|cols| - 1], view, base);
      var last := Exposing(view.viewColumns, base, cols[|cols| - 1]);
      if init.Some? && last.Some? then Some(init.value + [last.value]) else None
  }

  /** View column `k` is the first that shows this column of the base. */
  ghost predicate FirstToShow(cols: seq<ViewColumn>, base: string, col: string, k: nat) {
    && k < |cols| && BaseKey(cols[k]) == base && cols[k].baseColumn == col
    && forall j :: 0 <= j < k ==> BaseKey(cols[j]) != base || cols[j].baseColumn != col
  }

  /** The name under which a view shows a base's column: that of the first view column to do so. */
  ghost predicate ShownAs(cols: seq<ViewColumn>, base: string, col: string, name: string) {
    exists k :: 0 <= k < |cols| && FirstToShow(cols, base, col, k) && cols[k].name == name
  }

  ghost predicate Survives(cols: seq<ViewColumn>, base: string, col: string) {
    exists k :: 0 <= k < |cols| && BaseKey(cols[k]) == base && cols[k].baseColumn == col
  }

  lemma {:induction false} ExposingIsFirst(cols: seq<ViewColumn>, base: string, col: string)
    ensures var r := Exposing(cols, base, col);
            if r.Some? then ShownAs(cols, base, col, r.value) && Survives(cols, base, col)
            else !Survives(cols, base, col)
  {
    if cols != [] {
      var n := |cols| - 1;
      var init := cols[..n];
      ExposingIsFirst(init, base, col);
      if Exposing(init, base, col).Some? {
        ShownLonger(cols, base, col, Exposing(init, base, col).value);
      } else {
        assert forall j :: 0 <= j < n ==> init[j] == cols[j];
        assert BaseKey(cols[n]) == base && cols[n].baseColumn == col ==> FirstToShow(cols, base, col, n);
      }
    }
  }

  lemma ShownLonger(cols: seq<ViewColumn>, base: string, col: string, name: string)
    requires cols != [] && ShownAs(cols[..|cols| - 1], base, col, name)
    ensures ShownAs(cols, base, col, name) && Survives(cols, base, col)
  {
    var init := cols[..|cols| - 1];
    var k :| 0 <= k < |init| && FirstToShow(init, base, col, k) && init[k].name == name;
    assert forall j :: 0 <= j < |init| ==> init[j] == cols[j];
    assert FirstToShow(cols, base, col, k);
  }

  lemma {:induction false} MapsEach(cols: seq<string>, view: Relation, base: string)
    ensures var r := MapColumns(cols, view, base);
            if r.Some? then
              forall i :: 0 <= i < |cols| ==> Exposing(view.viewColumns, base, cols[i]) == Some(r.value[i])
            else exists i :: 0 <= i < |cols| && Exposing(view.viewColumns, base, cols[i]) == None
  {
    if cols != [] {
      var n := |cols| - 1;
      var init := cols[..n];
      MapsEach(init, view, base);
      if MapColumns(init, view, base).None? {
        var i :| 0 <= i < n && Exposing(view.viewColumns, base, init[i]) == None;
        assert init[i] == cols[i];
      } else {
        assert forall i :: 0 <= i < n ==> init[i] == cols[i];
      }
    }
  }

  /** Columns are mapped one by one, in order, and all or none. */
  lemma MapsByPosition(cols: seq<string>, view: Relation, base: string)
    ensures var r := MapColumns(cols, view, base);
            && (r.Some? <==> forall i :: 0 <= i < |cols| ==> Survives(view.viewColumns, base, cols[i]))
            && (r.Some? ==> forall i :: 0 <= i < |cols| ==> ShownAs(view.viewColumns, base, cols[i], r.value[i]))
  {
    var r := MapColumns(cols, view, base);
    MapsEach(cols, view, base);
    if r.Some? {
      forall i | 0 <= i < |cols|
        ensures Survives(view.viewColumns, base, cols[i]) && ShownAs(view.viewColumns, base, cols[i], r.value[i])
      {
        ExposingIsFirst(view.viewColumns, base, cols[i]);
      }
    } else {
      var i :| 0 <= i < |cols| && Exposing(view.viewColumns, base, cols[i]) == None;
      ExposingIsFirst(view.viewColumns, base, cols[i]);
    }
  }

  /** A base's foreign key as the view inherits it. */
  function Projected(view: Relation, base: string, baseName: string, fk: ForeignKey): Option<ForeignKey> {
    var cols := MapColumns(fk.columns, view, base);
    if cols.None? then None else Some(fk.(columns := cols.value, source := baseName))
  }

  /**
  A view has an image of a key exactly if it shows each of the key's columns; the image pairs the view's name of every
  column with the referenced column that the key pairs the column with.
  */
  lemma ImageByPosition(view: Relation, base: string, baseName: string, fk: ForeignKey)
    ensures var r := Projected(view, base, baseName, fk);
            && (r.Some? <==> forall i :: 0 <= i < |fk.columns| ==> Survives(view.viewColumns, base, fk.columns[i]))
            && (r.Some? ==>
                  && r.value.name == fk.name && r.value.source == baseName && r.value.refColumns == fk.refColumns
                  && r.value.refSchema == fk.refSchema && r.value.refRelation == fk.refRelation
                  && |r.value.columns| == |fk.columns|
                  && forall i :: 0 <= i < |fk.columns| ==>
                       ShownAs(view.viewColumns, base, fk.columns[i], r.value.columns[i]))
  {
    MapsByPosition(fk.columns, view, base);
  }

  /** The view's image of one of these keys of a base. */
  ghost predicate Inherits(view: Relation, base: string, name: string, fks: seq<ForeignKey>, k: ForeignKey) {
    exists j :: 0 <= j < |fks| && Projected(view, base, name, fks[j]) == Some(k)
  }

  predicate HasProjected(fks: seq<ForeignKey>, fk: ForeignKey, baseName: string) {
    exists i :: 0 <= i < |fks| && fks[i].name == fk.name && fks[i].source == baseName
  }

  function Bases(view: Relation): set<string> {
    set i | 0 <= i < |view.viewColumns| :: BaseKey(view.viewColumns[i])
  }

  /** Projecting the base's keys onto the view again would add nothing. */
  ghost predicate ClosedOver(view: Relation, viewKeys: seq<ForeignKey>, base: string, baseName: string,
                             baseKeys: seq<ForeignKey>) {
    forall j :: 0 <= j < |baseKeys| && Projected(view, base, baseName, baseKeys[j]).Some? ==>
        HasProjected(viewKeys, baseKeys[j], baseName)
  }

  /** The view is closed over each of its bases in the model, those in `todo` aside. */
  ghost predicate ClosedBut(rels: map<string, Relation>, keys: Keys, v: string, todo: set<string>)
    requires v in rels && keys.Keys == rels.Keys
  {
    forall b :: b in Bases(rels[v]) && b in rels && b !in todo ==>
        ClosedOver(rels[v], keys[v], b, rels[b].name, keys[b])
  }

  /** Another projection onto the view would add nothing. */
  ghost predicate Closed(rels: map<string, Relation>, keys: Keys, v: string)
    requires v in rels && keys.Keys == rels.Keys
  {
    ClosedBut(rels, keys, v, {})
  }

  /** Only the view's own list changed, and only at its end. */
  ghost predicate Grew(before: Keys, after: Keys, v: string) {
    v in before && v in after && before[v] <= after[v] && after == before[v := after[v]]
  }

  lemma ClosedOneMore(rels: map<string, Relation>, before: Keys, after: Keys, v: string, b: string, todo: set<string>)
    requires v in rels && before.Keys == rels.Keys && v !in Bases(rels[v]) && Grew(before, after, v)
    requires ClosedBut(rels, before, v, todo)
    requires b in rels && ClosedOver(rels[v], after[v], b, rels[b].name, after[b])
    ensures after.Keys == rels.Keys && ClosedBut(rels, after, v, todo - {b})
  {
    forall c | c in Bases(rels[v]) && c in rels && c !in todo
        ensures ClosedOver(rels[v], after[v], c, rels[c].name, after[c]) {
      ClosedGrows(rels[v], before[v], after[v], c, rels[c].name, before[c]);
    }
  }

  // ----- provenance -----

  datatype Link = Link(rel: string, fk: ForeignKey)

  ghost predicate Follows(rels: map<string, Relation>, a: Link, b: Link) {
    a.rel in rels && b.rel in rels && Projected(rels[b.rel], a.rel, rels[a.rel].name, a.fk) == Some(b.fk)
  }

  /** From an original key, each link the projection of the one before it. */
  ghost predicate Chain(rels: map<string, Relation>, original: Keys, c: seq<Link>) {
    && c != [] && c[0].rel in original && c[0].fk in original[c[0].rel]
    && forall i :: 0 < i < |c| ==> Follows(rels, c[i - 1], c[i])
  }

  ghost predicate Traced(rels: map<string, Relation>, original: Keys, rel: string, fk: ForeignKey) {
    exists c :: Chain(rels, original, c) && c[|c| - 1] == Link(rel, fk)
  }

  ghost predicate AllTraced(rels: map<string, Relation>, original: Keys, keys: Keys) {
    forall rel, i :: rel in keys && 0 <= i < |keys[rel]| ==> Traced(rels, original, rel, keys[rel][i])
  }

  lemma ProjectedIsTraced(rels: map<string, Relation>, original: Keys, view: string, base: string, fk: ForeignKey)
    requires view in rels && base in rels && Traced(rels, original, base, fk)
    requires Projected(rels[view], base, rels[base].name, fk).Some?
    ensures Traced(rels, original, view, Projected(rels[view], base, rels[base].name, fk).value)
  {
    var c :| Chain(rels, original, c) && c[|c| - 1] == Link(base, fk);
    var d := c + [Link(view, Projected(rels[view], base, rels[base].name, fk).value)];
    forall i | 0 < i < |d| ensures Follows(rels, d[i - 1], d[i]) {
      assert i < |c| ==> Follows(rels, c[i - 1], c[i]);
    }
    assert d[0] == c[0] && Chain(rels, original, d) && d[|d| - 1] == d[|c|];
  }

  /** Each link's columns are, one by one, the names its view shows the columns of the link before it under. */
  ghost predicate Paired(rels: map<string, Relation>, a: Link, b: Link) {
    && b.rel in rels && |b.fk.columns| == |a.fk.columns|
    && forall i :: 0 <= i < |a.fk.columns| ==>
         ShownAs(rels[b.rel].viewColumns, a.rel, a.fk.columns[i], b.fk.columns[i])
  }

  lemma FollowsPairs(rels: map<string, Relation>, a: Link, b: Link)
    requires Follows(rels, a, b)
    ensures Paired(rels, a, b)
  {
    ImageByPosition(rels[b.rel], a.rel, rels[a.rel].name, a.fk);
  }

  /** A traced key references what its original did, each column standing for the original's in the same position. */
  lemma {:induction false} ChainKeepsReference(rels: map<string, Relation>, original: Keys, c: seq<Link>)
    requires Chain(rels, original, c)
    ensures var a, z := c[0].fk, c[|c| - 1].fk;
            && z.name == a.name && z.refSchema == a.refSchema && z.refRelation == a.refRelation
            && z.refColumns == a.refColumns && |z.columns| == |a.columns|
    ensures forall n :: 0 < n < |c| ==> Paired(rels, c[n - 1], c[n])
    decreases |c|
  {
    if |c| > 1 {
      var k := |c| - 1;
      var init := c[..k];
      ChainKeepsReference(rels, original, init);
      FollowsPairs(rels, c[k - 1], c[k]);
      assert Follows(rels, c[k - 1], c[k]);
      forall n | 0 < n < |c| ensures Paired(rels, c[n - 1], c[n]) {
        if n < k {
          assert Paired(rels, init[n - 1], init[n]);
        }
      }
    }
  }

  // ----- acyclic models -----

  /** A view reads only relations of lower rank. */
  ghost predicate Ranked(rels: map<string, Relation>, rank: string -> nat) {
    forall v, b :: v in rels && rels[v].isView && b in rels && b in Bases(rels[v]) ==> rank(b) < rank(v)
  }

  ghost function Below(rels: map<string, Relation>, rank: string -> nat, k: string): set<string> {
    set x | x in rels && rank(x) < rank(k)
  }

  lemma {:induction false} SubsetSize<T>(a: set<T>, b: set<T>)
    requires a <= b
    ensures |a| <= |b| && (a != b ==> |a| < |b|)
  {
    if x :| x in a {
      SubsetSize(a - {x}, b - {x});
    }
  }

  /** Any ranking can be squeezed below the number of relations. */
  lemma RankSqueezed(rels: map<string, Relation>, rank: string -> nat) returns (low: string -> nat)
    requires Ranked(rels, rank)
    ensures Ranked(rels, low) && forall k :: k in rels ==> low(k) < |rels|
  {
    low := (k: string) => |Below(rels, rank, k)|;
    forall v, b | v in rels && rels[v].isView && b in rels && b in Bases(rels[v]) ensures low(b) < low(v) {
      assert b in Below(rels, rank, v) && b !in Below(rels, rank, b);
      assert Below(rels, rank, b) <= Below(rels, rank, v);
      SubsetSize(Below(rels, rank, b), Below(rels, rank, v));
    }
    forall k | k in rels ensures low(k) < |rels| {
      assert k !in Below(rels, rank, k) && Below(rels, rank, k) <= rels.Keys;
      SubsetSize(Below(rels, rank, k), rels.Keys);
    }
  }

  // ----- what the views' lists hold -----

  /** The view's image of one of its bases' keys. */
  ghost predicate IsImage(rels: map<string, Relation>, keys: Keys, v: string, k: ForeignKey)
    requires v in rels && keys.Keys == rels.Keys
  {
    exists b, j :: b in Bases(rels[v]) && b in rels && 0 <= j < |keys[b]| &&
                   Projected(rels[v], b, rels[b].name, keys[b][j]) == Some(k)
  }

  /** No two keys have the same name and source. */
  ghost predicate Marked(fks: seq<ForeignKey>) {
    forall i, j :: 0 <= i < j < |fks| ==> fks[i].name != fks[j].name || fks[i].source != fks[j].source
  }

  ghost predicate TidyAt(rels: map<string, Relation>, keys: Keys, v: string)
    requires v in rels && keys.Keys == rels.Keys
  {
    Marked(keys[v]) && forall i :: 0 <= i < |keys[v]| ==> IsImage(rels, keys, v, keys[v][i])
  }

  /** Every view's keys are images of its bases' keys, one for each name and source. */
  ghost predicate Tidy(rels: map<string, Relation>, keys: Keys)
    requires keys.Keys == rels.Keys
  {
    forall v :: v in rels && rels[v].isView ==> TidyAt(rels, keys, v)
  }

  lemma ImageStays(rels: map<string, Relation>, keys: Keys, after: Keys, v: string, k: ForeignKey)
    requires v in rels && keys.Keys == rels.Keys && after.Keys == rels.Keys && IsImage(rels, keys, v, k)
    requires forall r :: r in rels ==> keys[r] <= after[r]
    ensures IsImage(rels, after, v, k)
  {
    var b, j :| b in Bases(rels[v]) && b in rels && 0 <= j < |keys[b]| &&
                Projected(rels[v], b, rels[b].name, keys[b][j]) == Some(k);
    assert after[b][j] == keys[b][j];
  }

  lemma TidyGrows(rels: map<string, Relation>, keys: Keys, v: string, base: string, now: seq<ForeignKey>)
    requires keys.Keys == rels.Keys && v in rels && base in rels && base in Bases(rels[v]) && base != v
    requires Tidy(rels, keys) && rels[v].isView && keys[v] <= now && Marked(now)
    requires forall i :: |keys[v]| <= i < |now| ==> Inherits(rels[v], base, rels[base].name, keys[base], now[i])
    ensures Tidy(rels, keys[v := now])
  {
    var after := keys[v := now];
    forall u | u in rels && rels[u].isView ensures TidyAt(rels, after, u) {
      assert TidyAt(rels, keys, u);
      forall i | 0 <= i < |after[u]| ensures IsImage(rels, after, u, after[u][i]) {
        if u == v && i >= |keys[v]| {
          assert Inherits(rels[v], base, rels[base].name, keys[base], now[i]);
          var j :| 0 <= j < |keys[base]| && Projected(rels[v], base, rels[base].name, keys[base][j]) == Some(now[i]);
          assert after[base][j] == keys[base][j];
        } else {
          assert after[u][i] == keys[u][i];
          ImageStays(rels, keys, after, u, keys[u][i]);
        }
      }
    }
  }

  /** Every key of a base whose columns all survive has its image on the view. */
  ghost predicate Complete(rels: map<string, Relation>, keys: Keys, v: string)
    requires v in rels && keys.Keys == rels.Keys
  {
    forall b, j :: b in Bases(rels[v]) && b in rels && 0 <= j < |keys[b]| ==>
      var image := Projected(rels[v], b, rels[b].name, keys[b][j]);
      image.Some? ==> image.value in keys[v]
  }

  /** Surviving keys that share their name and their base's name, whatever its schema, have one image. */
  ghost predicate Unambiguous(rels: map<string, Relation>, keys: Keys, v: string)
    requires v in rels && keys.Keys == rels.Keys
  {
    forall b, j, c, k :: b in Bases(rels[v]) && b in rels && 0 <= j < |keys[b]| &&
                         c in Bases(rels[v]) && c in rels && 0 <= k < |keys[c]| ==>
      var x, y := Projected(rels[v], b, rels[b].name, keys[b][j]), Projected(rels[v], c, rels[c].name, keys[c][k]);
      x.Some? && y.Some? && keys[b][j].name == keys[c][k].name && rels[b].name == rels[c].name ==> x == y
  }

  /**
  A closed view holds the image of every surviving key exactly when no two of them that differ share a name and a base
  name: the test for a key already there does not look at the base's schema.
  */
  lemma CompleteIffUnambiguous(rels: map<string, Relation>, keys: Keys, v: string)
    requires v in rels && keys.Keys == rels.Keys && TidyAt(rels, keys, v) && Closed(rels, keys, v)
    ensures Complete(rels, keys, v) <==> Unambiguous(rels, keys, v)
  {
    if Unambiguous(rels, keys, v) {
      forall b, j | b in Bases(rels[v]) && b in rels && 0 <= j < |keys[b]| &&
                    Projected(rels[v], b, rels[b].name, keys[b][j]).Some?
        ensures Projected(rels[v], b, rels[b].name, keys[b][j]).value in keys[v]
      {
        ImageIsThere(rels, keys, v, b, j);
      }
    }
    if Complete(rels, keys, v) {
      forall b, j, c, k | b in Bases(rels[v]) && b in rels && 0 <= j < |keys[b]| &&
                          c in Bases(rels[v]) && c in rels && 0 <= k < |keys[c]| &&
                          keys[b][j].name == keys[c][k].name && rels[b].name == rels[c].name
        ensures var x := Projected(rels[v], b, rels[b].name, keys[b][j]);
                var y := Projected(rels[v], c, rels[c].name, keys[c][k]);
                x.Some? && y.Some? ==> x == y
      {
        var x, y := Projected(rels[v], b, rels[b].name, keys[b][j]), Projected(rels[v], c, rels[c].name, keys[c][k]);
        if x.Some? && y.Some? {
          MarkedOnce(keys[v], x.value, y.value);
        }
      }
    }
  }

  /**
  For one: a view over a.t and b.t, each with a key t_x_fkey on its x. With the image of the first, the view is closed,
  and the image of the second is missing.
  */
  lemma SameNamedBases() returns (rels: map<string, Relation>, keys: Keys)
    ensures "v" in rels && keys.Keys == rels.Keys && TidyAt(rels, keys, "v") && Closed(rels, keys, "v")
    ensures !Complete(rels, keys, "v")
  {
    var ax, bx := ViewColumn("ax", "a", "t", "x"), ViewColumn("bx", "b", "t", "x");
    var view := Relation("", "v", true, [ax, bx]);
    var fk := ForeignKey("t_x_fkey", ["x"], "", "u", ["id"], "");
    var first := fk.(columns := ["ax"], source := "t");
    rels := map["v" := view, "a.t" := Relation("a", "t", false, []), "b.t" := Relation("b", "t", false, [])];
    keys := map["v" := [first], "a.t" := [fk], "b.t" := [fk]];
    assert BaseKey(ax) == "a.t" && BaseKey(bx) == "b.t";
    assert view.viewColumns[0] == ax && view.viewColumns[1] == bx && Bases(view) == {"a.t", "b.t"};
    TwoColumns(ax, bx, "a.t", "x");
    TwoColumns(ax, bx, "b.t", "x");
    OneColumn("x", view, "a.t");
    OneColumn("x", view, "b.t");
    assert Projected(view, "a.t", "t", keys["a.t"][0]) == Some(first);
    assert Projected(view, "b.t", "t", keys["b.t"][0]) == Some(fk.(columns := ["bx"], source := "t"));
    assert keys["v"][0] == first;
  }

  lemma TwoColumns(a: ViewColumn, b: ViewColumn, base: string, col: string)
    ensures Exposing([a, b], base, col) ==
            if BaseKey(a) == base && a.baseColumn == col then Some(a.name)
            else if BaseKey(b) == base && b.baseColumn == col then Some(b.name) else None
  {
    assert [a, b][..1] == [a] && [a][..0] == [];
    assert Exposing([], base, col) == None;
    assert Exposing([a], base, col) == if BaseKey(a) == base && a.baseColumn == col then Some(a.name) else None;
  }

  lemma OneColumn(col: string, view: Relation, base: string)
    ensures var shown := Exposing(view.viewColumns, base, col);
            MapColumns([col], view, base) == if shown.Some? then Some([shown.value]) else None
  {
    var cols := [col];
    assert cols[..|cols| - 1] == [] && cols[|cols| - 1] == col;
    var none: seq<string>, shown := [], Exposing(view.viewColumns, base, col);
    assert MapColumns(none, view, base) == Some(none);
    if shown.Some? {
      assert none + [shown.value] == [shown.value];
    }
  }

  lemma MarkedOnce(fks: seq<ForeignKey>, a: ForeignKey, b: ForeignKey)
    requires Marked(fks) && a in fks && b in fks && a.name == b.name && a.source == b.source
    ensures a == b
  {
    var i :| 0 <= i < |fks| && fks[i] == a;
    var j :| 0 <= j < |fks| && fks[j] == b;
  }

  lemma ImageIsThere(rels: map<string, Relation>, keys: Keys, v: string, b: string, j: nat)
    requires v in rels && keys.Keys == rels.Keys && TidyAt(rels, keys, v) && Closed(rels, keys, v)
    requires Unambiguous(rels, keys, v) && b in Bases(rels[v]) && b in rels && j < |keys[b]|
    requires Projected(rels[v], b, rels[b].name, keys[b][j]).Some?
    ensures Projected(rels[v], b, rels[b].name, keys[b][j]).value in keys[v]
  {
    assert ClosedOver(rels[v], keys[v], b, rels[b].name, keys[b]);
    var i :| 0 <= i < |keys[v]| && keys[v][i].name == keys[b][j].name && keys[v][i].source == rels[b].name;
    assert IsImage(rels, keys, v, keys[v][i]);
    var c, k :| c in Bases(rels[v]) && c in rels && 0 <= k < |keys[c]| &&
                Projected(rels[v], c, rels[c].name, keys[c][k]) == Some(keys[v][i]);
    assert Projected(rels[v], b, rels[b].name, keys[b][j]) == Projected(rels[v], c, rels[c].name, keys[c][k]);
  }

  /** Views' lists only grew, tables' stayed, whatever was traced still is, and tidy lists stayed tidy. */
  ghost predicate Extends(rels: map<string, Relation>, a: Keys, b: Keys) {
    && a.Keys == rels.Keys && b.Keys == rels.Keys
    && (forall k :: k in rels ==> a[k] <= b[k] && (!rels[k].isView ==> b[k] == a[k]))
    && (forall original :: AllTraced(rels, original, a) ==> AllTraced(rels, original, b))
    && (Tidy(rels, a) ==> Tidy(rels, b))
  }

  lemma ExtendsTransitive(rels: map<string, Relation>, a: Keys, b: Keys, c: Keys)
    requires Extends(rels, a, b) && Extends(rels, b, c)
    ensures Extends(rels, a, c)
  {
  }

  // ----- one view -----

  /** Adds what the view inherits from one base. */
  method ProjectFrom(rels: map<string, Relation>, keys: Keys, v: string, base: string, exposed: map<string, string>)
    returns (after: Keys)
    requires keys.Keys == rels.Keys && v in rels && rels[v].isView && base in rels && base != v
    requires base in Bases(rels[v]) && Indexes(rels[v], base, exposed)
    ensures Grew(keys, after, v) && Extends(rels, keys, after)
    ensures ClosedOver(rels[v], after[v], base, rels[base].name, after[base])
    ensures ClosedOver(rels[v], keys[v], base, rels[base].name, keys[base]) ==> after == keys
  {
    var name, fks := rels[base].name, keys[base];
    var now := Inherit(rels[v], base, name, exposed, fks, keys[v]);
    after := keys[v := now];
    forall original | AllTraced(rels, original, keys) ensures AllTraced(rels, original, after) {
      InheritedTraced(rels, original, keys, v, base, now);
    }
    if Tidy(rels, keys) {
      assert TidyAt(rels, keys, v);
      TidyGrows(rels, keys, v, base, now);
    }
  }

  lemma InheritedTraced(rels: map<string, Relation>, original: Keys, keys: Keys, v: string, base: string,
                        now: seq<ForeignKey>)
    requires keys.Keys == rels.Keys && v in rels && base in rels && AllTraced(rels, original, keys) && keys[v] <= now
    requires forall i :: |keys[v]| <= i < |now| ==> Inherits(rels[v], base, rels[base].name, keys[base], now[i])
    ensures AllTraced(rels, original, keys[v := now])
  {
    var after := keys[v := now];
    forall rel, i | rel in after && 0 <= i < |after[rel]| ensures Traced(rels, original, rel, after[rel][i]) {
      if rel == v && i >= |keys[v]| {
        assert Inherits(rels[v], base, rels[base].name, keys[base], now[i]);
        var j :| 0 <= j < |keys[base]| && Projected(rels[v], base, rels[base].name, keys[base][j]) == Some(now[i]);
        ProjectedIsTraced(rels, original, v, base, keys[base][j]);
      } else {
        assert Traced(rels, original, rel, keys[rel][i]);
      }
    }
  }

  /** One turn of the loop over a view's bases. */
  method ProjectBase(rels: map<string, Relation>, ghost start: Keys, keys: Keys, v: string, b: string,
                     exposed: map<string, string>, ghost todo: set<string>)
    returns (after: Keys)
    requires v in rels && rels[v].isView && v !in Bases(rels[v]) && Grew(start, keys, v) && Extends(rels, start, keys)
    requires b in Bases(rels[v]) && b in rels && Indexes(rels[v], b, exposed)
    requires ClosedBut(rels, keys, v, todo) && (Closed(rels, start, v) ==> keys == start)
    ensures Grew(start, after, v) && Extends(rels, start, after)
    ensures ClosedBut(rels, after, v, todo - {b}) && (Closed(rels, start, v) ==> after == start)
  {
    after := ProjectFrom(rels, keys, v, b, exposed);
    ClosedOneMore(rels, keys, after, v, b, todo);
    ExtendsTransitive(rels, start, keys, after);
    GrewTwice(start, keys, after, v);
    if Closed(rels, start, v) {
      assert ClosedOver(rels[v], start[v], b, rels[b].name, start[b]);
    }
  }

  lemma GrewTwice(a: Keys, b: Keys, c: Keys, v: string)
    requires Grew(a, b, v) && Grew(b, c, v)
    ensures Grew(a, c, v)
  {
  }

  /** One view: every base it reads, in whatever order the index yields them. */
  method ProjectOneView(rels: map<string, Relation>, keys: Keys, v: string) returns (after: Keys)
    requires keys.Keys == rels.Keys && v in rels && rels[v].isView && v !in Bases(rels[v])
    ensures Grew(keys, after, v) && Extends(rels, keys, after)
    ensures Closed(rels, after, v)
    ensures Closed(rels, keys, v) ==> after == keys
  {
    after := keys;
    var exposes := ExposedColumns(rels[v]);
    var todo := exposes.Keys;
    while todo != {}
      invariant todo <= exposes.Keys && after.Keys == rels.Keys
      invariant Grew(keys, after, v) && Extends(rels, keys, after)
      invariant ClosedBut(rels, after, v, todo)
      invariant Closed(rels, keys, v) ==> after == keys
      decreases todo
    {
      var b :| b in todo;
      if b in rels {
        after := ProjectBase(rels, keys, after, v, b, exposes[b], todo);
      }
      todo := todo - {b};
    }
  }

  /** Keys that only grew keep what was closed, as long as the base's keys stayed. */
  lemma ClosedGrows(view: Relation, was: seq<ForeignKey>, now: seq<ForeignKey>, base: string, name: string,
                    fks: seq<ForeignKey>)
    requires ClosedOver(view, was, base, name, fks) && was <= now
    ensures ClosedOver(view, now, base, name, fks)
  {
    forall j | 0 <= j < |fks| && Projected(view, base, name, fks[j]).Some? ensures HasProjected(now, fks[j], name) {
      var i :| 0 <= i < |was| && was[i].name == fks[j].name && was[i].source == name;
      assert now[i] == was[i];
    }
  }

  /** A view's index of one base: each exposed base column under the view column that shows it. */
  ghost predicate Indexes(view: Relation, base: string, exposed: map<string, string>) {
    forall c :: Exposing(view.viewColumns, base, c) == if c in exposed then Some(exposed[c]) else None
  }

  function Shown(exposes: map<string, map<string, string>>, b: string, c: string): Option<string> {
    if b in exposes && c in exposes[b] then Some(exposes[b][c]) else None
  }

  ghost predicate Tracks(cols: seq<ViewColumn>, exposes: map<string, map<string, string>>) {
    forall b, c :: Exposing(cols, b, c) == Shown(exposes, b, c)
  }

  lemma TracksOneMore(cols: seq<ViewColumn>, exposes: map<string, map<string, string>>, vc: ViewColumn,
                      known: map<string, string>)
    requires Tracks(cols, exposes)
    requires var old_ := if BaseKey(vc) in exposes then exposes[BaseKey(vc)] else map[];
             known == if vc.baseColumn in old_ then old_ else old_[vc.baseColumn := vc.name]
    ensures Tracks(cols + [vc], exposes[BaseKey(vc) := known])
  {
    var more := cols + [vc];
    assert more[..|more| - 1] == cols;
    forall b, c ensures Exposing(more, b, c) == Shown(exposes[BaseKey(vc) := known], b, c) {
      assert Exposing(cols, b, c) == Shown(exposes, b, c);
    }
  }

  method ExposedColumns(view: Relation) returns (exposes: map<string, map<string, string>>)
    ensures exposes.Keys == Bases(view)
    ensures forall b :: b in exposes ==> Indexes(view, b, exposes[b])
  {
    exposes := map[];
    var cols := view.viewColumns;
    for i := 0 to |cols|
      invariant exposes.Keys == set k | 0 <= k < i :: BaseKey(cols[k])
      invariant Tracks(cols[..i], exposes)
    {
      assert cols[..i + 1] == cols[..i] + [cols[i]];
      var b := BaseKey(cols[i]);
      var known: map<string, string> := if b in exposes then exposes[b] else map[];
      if cols[i].baseColumn !in known {
        known := known[cols[i].baseColumn := cols[i].name];
      }
      TracksOneMore(cols[..i], exposes, cols[i], known);
      exposes := exposes[b := known];
    }
    assert cols[..|cols|] == cols;
    forall b | b in exposes ensures Indexes(view, b, exposes[b]) {
      assert forall c :: Exposing(cols, b, c) == Shown(exposes, b, c);
    }
  }

  method MapBy(cols: seq<string>, exposed: map<string, string>, ghost view: Relation, ghost base: string)
    returns (r: Option<seq<string>>)
    requires Indexes(view, base, exposed)
    ensures r == MapColumns(cols, view, base)
  {
    var out: seq<string> := [];
    for i := 0 to |cols|
      invariant MapColumns(cols[..i], view, base) == Some(out)
    {
      assert cols[..i + 1][..i] == cols[..i];
      if cols[i] !in exposed {
        MapFails(cols, view, base, i + 1);
        return None;
      }
      out := out + [exposed[cols[i]]];
    }
    assert cols[..|cols|] == cols;
    return Some(out);
  }

  lemma {:induction false} MapFails(cols: seq<string>, view: Relation, base: string, n: nat)
    requires n <= |cols| && MapColumns(cols[..n], view, base).None?
    ensures MapColumns(cols, view, base).None?
    decreases |cols|
  {
    if n == |cols| {
      assert cols[..n] == cols;
    } else {
      assert cols[..|cols| - 1][..n] == cols[..n];
      MapFails(cols[..|cols| - 1], view, base, n);
    }
  }

  /** The inner loop: the view's keys followed by the base's keys it newly inherits. */
  method Inherit(view: Relation, base: string, name: string, exposed: map<string, string>, fks: seq<ForeignKey>,
                 was: seq<ForeignKey>)
    returns (now: seq<ForeignKey>)
    requires Indexes(view, base, exposed)
    ensures was <= now && ClosedOver(view, now, base, name, fks)
    ensures forall i :: |was| <= i < |now| ==> Inherits(view, base, name, fks, now[i])
    ensures ClosedOver(view, was, base, name, fks) ==> now == was
    ensures Marked(was) ==> Marked(now)
  {
    now := was;
    for j := 0 to |fks|
      invariant was <= now && ClosedOver(view, now, base, name, fks[..j])
      invariant forall i :: |was| <= i < |now| ==> Inherits(view, base, name, fks, now[i])
      invariant ClosedOver(view, was, base, name, fks) ==> now == was
      invariant Marked(was) ==> Marked(now)
    {
      var fk := fks[j];
      var viewCols := MapBy(fk.columns, exposed, view, base);
      if viewCols.Some? && !HasProjected(now, fk, name) {
        var image := ForeignKey(fk.name, viewCols.value, fk.refSchema, fk.refRelation, fk.refColumns, name);
        StillClosed(view, now, image, base, name, fks[..j]);
        now := now + [image];
        assert now[|now| - 1] == image;
      }
      assert fks[..j + 1] == fks[..j] + [fks[j]];
    }
    assert fks[..|fks|] == fks;
  }

  lemma StillClosed(view: Relation, was: seq<ForeignKey>, more: ForeignKey, base: string, name: string,
                    fks: seq<ForeignKey>)
    requires ClosedOver(view, was, base, name, fks)
    ensures ClosedOver(view, was + [more], base, name, fks)
  {
    ClosedGrows(view, was, was + [more], base, name, fks);
  }

  // ----- the passes -----

  /** Every view of rank at most `n` is closed. */
  ghost predicate ClosedUpTo(rels: map<string, Relation>, keys: Keys, rank: string -> nat, n: int)
    requires keys.Keys == rels.Keys
  {
    forall v :: v in rels && rels[v].isView && rank(v) <= n ==> Closed(rels, keys, v)
  }

  ghost predicate AllClosed(rels: map<string, Relation>, keys: Keys)
    requires keys.Keys == rels.Keys
  {
    forall v :: v in rels && rels[v].isView ==> Closed(rels, keys, v)
  }

  /** Relations of rank at most `n` have the same keys. */
  ghost predicate SameUpTo(rels: map<string, Relation>, a: Keys, b: Keys, rank: string -> nat, n: int)
    requires a.Keys == rels.Keys && b.Keys == rels.Keys
  {
    forall u :: u in rels && rank(u) <= n ==> a[u] == b[u]
  }

  /** A view one rank up depends only on itself and on what stayed the same. */
  lemma ClosedKept(rels: map<string, Relation>, a: Keys, b: Keys, rank: string -> nat, n: int, v: string)
    requires a.Keys == rels.Keys && b.Keys == rels.Keys && Ranked(rels, rank) && SameUpTo(rels, a, b, rank, n)
    requires v in rels && rels[v].isView && rank(v) <= n + 1 && a[v] == b[v] && Closed(rels, a, v)
    ensures Closed(rels, b, v)
  {
    forall x | x in Bases(rels[v]) && x in rels ensures ClosedOver(rels[v], b[v], x, rels[x].name, b[x]) {
      assert rank(x) <= n;
      assert ClosedOver(rels[v], a[v], x, rels[x].name, a[x]);
    }
  }

  /** The views of rank at most `n + 1` among the first `k` of the order are closed. */
  ghost predicate ClosedBefore(rels: map<string, Relation>, keys: Keys, rank: string -> nat, n: int,
                               order: seq<string>, k: nat)
    requires keys.Keys == rels.Keys && k <= |order|
  {
    forall i :: 0 <= i < k && order[i] in rels && rels[order[i]].isView && rank(order[i]) <= n + 1 ==>
        Closed(rels, keys, order[i])
  }

  lemma PassStep(rels: map<string, Relation>, start: Keys, a: Keys, b: Keys, rank: string -> nat, n: int,
                 order: seq<string>, k: nat)
    requires start.Keys == rels.Keys && a.Keys == rels.Keys && b.Keys == rels.Keys && Ranked(rels, rank) && k < |order|
    requires ClosedUpTo(rels, start, rank, n) && SameUpTo(rels, start, a, rank, n) &&
               ClosedBefore(rels, a, rank, n, order, k)
    requires order[k] in rels && rels[order[k]].isView
    requires Grew(a, b, order[k]) && Closed(rels, b, order[k]) && (Closed(rels, a, order[k]) ==> b == a)
    ensures SameUpTo(rels, start, b, rank, n) && ClosedBefore(rels, b, rank, n, order, k + 1)
  {
    var v := order[k];
    if rank(v) <= n {
      ClosedKept(rels, start, a, rank, n, v);
    }
    assert SameUpTo(rels, a, b, rank, n);
    forall i | 0 <= i < k && order[i] in rels && rels[order[i]].isView && rank(order[i]) <= n + 1 && order[i] != v
      ensures Closed(rels, b, order[i])
    {
      ClosedKept(rels, a, b, rank, n, order[i]);
    }
  }

  /** Where a pass stands after the first `i` relations. */
  ghost predicate Passing(rels: map<string, Relation>, start: Keys, keys: Keys, added: bool, rank: string -> nat,
                          n: int, order: seq<string>, i: nat)
  {
    && start.Keys == rels.Keys && Extends(rels, start, keys) && i <= |order|
    && SameUpTo(rels, start, keys, rank, n) && ClosedBefore(rels, keys, rank, n, order, i)
    && (!added ==> keys == start)
    && (!added ==> forall j :: 0 <= j < i && order[j] in rels && rels[order[j]].isView ==>
         Closed(rels, start, order[j]))
  }

  /** One relation of a pass. */
  method Visit(rels: map<string, Relation>, ghost start: Keys, keys: Keys, added: bool, ghost rank: string -> nat,
               ghost n: int, order: seq<string>, i: nat)
    returns (after: Keys, added': bool)
    requires Passing(rels, start, keys, added, rank, n, order, i) && i < |order| && order[i] in rels
    requires Ranked(rels, rank) && ClosedUpTo(rels, start, rank, n)
    ensures Passing(rels, start, after, added', rank, n, order, i + 1)
  {
    var v := order[i];
    after, added' := keys, added;
    if rels[v].isView && rels[v].viewColumns != [] {
      after := ProjectOneView(rels, keys, v);
      PassStep(rels, start, keys, after, rank, n, order, i);
      ExtendsTransitive(rels, start, keys, after);
      if after != keys {
        added' := true;
      }
    } else if rels[v].isView {
      assert Bases(rels[v]) == {};
    }
  }

  /** One pass over the relations: closes one more rank, and reports whether it added anything. */
  method Pass(rels: map<string, Relation>, order: seq<string>, keys: Keys, ghost rank: string -> nat, ghost n: int)
    returns (after: Keys, added: bool)
    requires keys.Keys == rels.Keys && Ranked(rels, rank) && (forall k :: k in rels <==> k in order)
    requires ClosedUpTo(rels, keys, rank, n)
    ensures Extends(rels, keys, after) && ClosedUpTo(rels, after, rank, n + 1)
    ensures !added ==> after == keys && AllClosed(rels, after)
  {
    after, added := keys, false;
    for i := 0 to |order|
      invariant Passing(rels, keys, after, added, rank, n, order, i)
    {
      after, added := Visit(rels, keys, after, added, rank, n, order, i);
    }
    forall v | v in rels && rels[v].isView && rank(v) <= n + 1 ensures Closed(rels, after, v) {
      var i :| 0 <= i < |order| && order[i] == v;
    }
  }

  class Model {
    const relations: map<string, Relation>
    const order: seq<string>
    var foreignKeys: Keys

    ghost predicate Valid()
      reads this
    {
      && foreignKeys.Keys == relations.Keys
      && (forall k :: k in relations <==> k in order)
    }

    constructor (relations: map<string, Relation>, order: seq<string>, foreignKeys: Keys)
      requires foreignKeys.Keys == relations.Keys && forall k :: k in relations <==> k in order
      ensures Valid() && this.relations == relations && this.order == order && this.foreignKeys == foreignKeys
    {
      this.relations, this.order, this.foreignKeys := relations, order, foreignKeys;
    }

    /**
    At most one pass per relation. When no view reads itself through other views, it ends with every view closed, every
    key traced to an original one, tables untouched and no key lost.
    */
    method ProjectViews(ghost rank: string -> nat)
      requires Valid() && Ranked(relations, rank)
      modifies this`foreignKeys
      ensures Valid() && AllClosed(relations, foreignKeys)
      ensures AllTraced(relations, old(foreignKeys), foreignKeys) && Extends(relations, old(foreignKeys), foreignKeys)
      ensures (forall v :: v in relations && relations[v].isView ==> old(foreignKeys[v]) == []) ==>
                Tidy(relations, foreignKeys)
    {
      ghost var low := RankSqueezed(relations, rank);
      OrderCovers(relations, order);
      OriginalsTraced(relations, foreignKeys);
      assert (forall v :: v in relations && relations[v].isView ==> foreignKeys[v] == []) ==>
          Tidy(relations, foreignKeys);
      assert ClosedUpTo(relations, foreignKeys, low, -1);
      var keys := foreignKeys;
      var added := true;
      for pass := 0 to |order|
        invariant keys.Keys == relations.Keys && ClosedUpTo(relations, keys, low, pass - 1)
        invariant Extends(relations, old(foreignKeys), keys)
      {
        ghost var was := keys;
        keys, added := Pass(relations, order, keys, low, pass - 1);
        ExtendsTransitive(relations, old(foreignKeys), was, keys);
        if !added {
          foreignKeys := keys;
          return;
        }
      }
      foreignKeys := keys;
    }
  }

  lemma OriginalsTraced(rels: map<string, Relation>, keys: Keys)
    ensures AllTraced(rels, keys, keys)
  {
    forall rel, i | rel in keys && 0 <= i < |keys[rel]| ensures Traced(rels, keys, rel, keys[rel][i]) {
      var c := [Link(rel, keys[rel][i])];
      assert Chain(rels, keys, c) && c[|c| - 1] == Link(rel, keys[rel][i]);
    }
  }

  lemma OrderCovers(rels: map<string, Relation>, order: seq<string>)
    requires forall k :: k in rels <==> k in order
    ensures |rels| <= |order|
  {
    var elems := set i | 0 <= i < |order| :: order[i];
    assert rels.Keys == elems;
    ImageSize(order);
  }

  lemma {:induction false} ImageSize(s: seq<string>)
    ensures |set i | 0 <= i < |s| :: s[i]| <= |s|
  {
    if s != [] {
      var t := s[..|s| - 1];
      ImageSize(t);
      assert (set i | 0 <= i < |s| :: s[i]) == (set i | 0 <= i < |t| :: t[i]) + {s[|s| - 1]};
    }
  }
}
