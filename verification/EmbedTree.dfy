/**
Inner embeds at every depth of a request (backend/sqlgen/embed.go, ir/parse.go). The grammar takes `!inner`
anywhere; the compiler writes its EXISTS only for the embeds of the top level.
*/
module EmbedTree {
  import opened Wrappers
  import opened Ir
  import opened Embedding

  /** An embed with the embeds inside it. */
  datatype Node = Node(edge: Edge, inner: bool, kids: seq<Node>)

  /** The filter of each level, which a path of positions names. */
  type Filters = (seq<nat>, Row) -> Truth

  function At(f: Filters, path: seq<nat>): Row -> Truth { (r: Row) => f(path, r) }

  function RowsOf(v: Embedded): seq<Row> {
    match v
    case Object(r) => if r.Some? then [r.value] else []
    case Array(rs) => rs
  }

  /** The top level keeps a row that passes its filter and the EXISTS of each of its inner embeds. */
  ghost predicate Kept(db: Db, f: Filters, nodes: seq<Node>, p: Row) {
    && f([], p) == True
    && forall i :: 0 <= i < |nodes| && nodes[i].inner ==> Exists(db, nodes[i].edge, p, At(f, [i]))
  }

  /** A row has each of its inner embeds, and so has every row embedded in it. */
  ghost predicate Satisfied(db: Db, f: Filters, path: seq<nat>, nodes: seq<Node>, p: Row)
    decreases nodes, 0
  {
    forall i :: 0 <= i < |nodes| ==> NodeSatisfied(db, f, path + [i], nodes[i], p)
  }

  ghost predicate NodeSatisfied(db: Db, f: Filters, path: seq<nat>, n: Node, p: Row)
    decreases n, 1
  {
    var v := Subquery(db, n.edge, p, At(f, path));
    (n.inner ==> Present(v)) && forall k :: 0 <= k < |RowsOf(v)| ==> Satisfied(db, f, path, n.kids, RowsOf(v)[k])
  }

  /** On every database, under all filters, every row that is kept or embedded has its inner embeds. */
  ghost predicate AlwaysSatisfied(nodes: seq<Node>) {
    forall db: Db, f: Filters, p: Row :: Kept(db, f, nodes, p) ==> Satisfied(db, f, [], nodes, p)
  }

  // ----- the condition -----

  predicate NoInner(nodes: seq<Node>) {
    forall i :: 0 <= i < |nodes| ==> !nodes[i].inner && NoInner(nodes[i].kids)
  }

  /** Columns are paired and none is repeated, and a computed relationship crosses no junction. */
  ghost predicate Regular(e: Edge) {
    && NoRepeats(e.local) && NoRepeats(e.foreign)
    && (if e.junction.Some? then
          var j := e.junction.value;
          e.func.None? && |j.local| == |e.local| && |j.foreign| == |e.foreign| && NoRepeats(j.local)
        else |e.local| == |e.foreign|)
  }

  predicate SharesColumn(e: Edge, i: nat)
    requires e.junction.Some? && i < |e.junction.value.local| && i < |e.junction.value.foreign|
  {
    e.junction.value.local[i] == e.junction.value.foreign[i]
  }

  /**
  A to-one edge across a junction must reach both ends by the same columns; other edges are read as they are
  filtered.
  */
  predicate ReadAsFiltered(e: Edge) {
    e.card == ToOne && e.junction.Some? ==>
      forall i :: 0 <= i < |e.junction.value.local| && i < |e.junction.value.foreign| ==> SharesColumn(e, i)
  }

  /** No inner embed below the top level, and each one there is read as it is filtered. */
  predicate Sound(nodes: seq<Node>) {
    forall i :: 0 <= i < |nodes| ==> NoInner(nodes[i].kids) && (nodes[i].inner ==> ReadAsFiltered(nodes[i].edge))
  }

  // ----- it suffices -----

  lemma SharedJoins(e: Edge, p: Row, t: Row, j: Row)
    requires e.junction.Some? && Regular(e) && Linked(e, p, t, j)
    requires forall i :: 0 <= i < |e.junction.value.local| && i < |e.junction.value.foreign| ==> SharesColumn(e, i)
    ensures Correlated(e, p, t)
  {
    var x := e.junction.value;
    forall i | 0 <= i < |e.foreign| && i < |e.local|
        ensures Get(t, e.foreign[i]) != Null && Get(t, e.foreign[i]) == Get(p, e.local[i]) {
      assert SharesColumn(e, i);
      assert Get(j, x.foreign[i]) == Get(t, e.foreign[i]) && Get(j, x.local[i]) == Get(p, e.local[i]);
    }
  }

  lemma ExistsIsRead(db: Db, e: Edge, p: Row, filter: Row -> Truth)
    requires Regular(e) && ReadAsFiltered(e) && Exists(db, e, p, filter)
    ensures Present(Subquery(db, e, p, filter))
  {
    if e.card == ToOne && e.junction.Some? {
      ToOnePresent(db, e, p, filter);
      var src, js := Source(db, e, p), Rows(db, e.junction.value.rel);
      var i, k :| 0 <= i < |src| && 0 <= k < |js| && Linked(e, p, src[i], js[k]) && filter(src[i]) == True;
      SharedJoins(e, p, src[i], js[k]);
    } else {
      ExistsIffPresent(db, e, p, filter);
    }
  }

  lemma {:induction false} NoInnerSatisfied(db: Db, f: Filters, path: seq<nat>, nodes: seq<Node>, p: Row)
    requires NoInner(nodes)
    ensures Satisfied(db, f, path, nodes, p)
    decreases nodes
  {
    forall i | 0 <= i < |nodes| ensures NodeSatisfied(db, f, path + [i], nodes[i], p) {
      var rows := RowsOf(Subquery(db, nodes[i].edge, p, At(f, path + [i])));
      forall k | 0 <= k < |rows| ensures Satisfied(db, f, path + [i], nodes[i].kids, rows[k]) {
        NoInnerSatisfied(db, f, path + [i], nodes[i].kids, rows[k]);
      }
    }
  }

  lemma SoundSuffices(db: Db, f: Filters, nodes: seq<Node>, p: Row)
    requires Sound(nodes) && (forall i :: 0 <= i < |nodes| ==> Regular(nodes[i].edge)) && Kept(db, f, nodes, p)
    ensures Satisfied(db, f, [], nodes, p)
  {
    forall i | 0 <= i < |nodes| ensures NodeSatisfied(db, f, [] + [i], nodes[i], p) {
      assert [] + [i] == [i];
      if nodes[i].inner {
        ExistsIsRead(db, nodes[i].edge, p, At(f, [i]));
      }
      var rows := RowsOf(Subquery(db, nodes[i].edge, p, At(f, [i])));
      forall k | 0 <= k < |rows| ensures Satisfied(db, f, [i], nodes[i].kids, rows[k]) {
        NoInnerSatisfied(db, f, [i], nodes[i].kids, rows[k]);
      }
    }
  }

  // ----- an inner embed below the top level -----

  function EdgeColumns(e: Edge): set<string> {
    (set c | c in e.local) + (set c | c in e.foreign) +
    if e.junction.Some? then (set c | c in e.junction.value.local) + (set c | c in e.junction.value.foreign) else {}
  }

  function EdgeRelations(e: Edge): set<string> {
    {e.target} + if e.junction.Some? then {e.junction.value.rel} else {}
  }

  function Columns(nodes: seq<Node>): set<string> {
    if nodes == [] then {}
    else
      var last := nodes[|nodes| - 1];
      Columns(nodes[..|nodes| - 1]) + EdgeColumns(last.edge) + Columns(last.kids)
  }

  function Relations(nodes: seq<Node>): set<string> {
    if nodes == [] then {}
    else
      var last := nodes[|nodes| - 1];
      Relations(nodes[..|nodes| - 1]) + EdgeRelations(last.edge) + Relations(last.kids)
  }

  /** Every relation holds the one row, and every function returns it. */
  function OneRow(relations: set<string>, row: Row): Db {
    Db(map r | r in relations :: [row], (f: string, p: Row) => [row])
  }

  function Ones(columns: set<string>): Row { map c | c in columns :: Val("1") }

  /** A row of ones joins itself over every edge. */
  lemma OnesJoin(relations: set<string>, columns: set<string>, e: Edge, filter: Row -> Truth)
    requires EdgeRelations(e) <= relations && EdgeColumns(e) <= columns && filter(Ones(columns)) == True
    ensures var row := Ones(columns); var db := OneRow(relations, row);
            Exists(db, e, row, filter) && RowsOf(Subquery(db, e, row, filter)) == [row]
  {
    var row := Ones(columns);
    var db := OneRow(relations, row);
    var src := Source(db, e, row);
    assert src == [row] && src[0] == row;
    assert Correlated(e, row, row);
    var keep := (t: Row) => Correlated(e, row, t) && filter(t) == True;
    assert Select([row][..0], keep) == [] && keep(row);
    assert Select(src, keep) == [row];
    if e.junction.Some? {
      var js := Rows(db, e.junction.value.rel);
      assert js == [row] && js[0] == row;
      assert Linked(e, row, row, row);
      var on := (t: Row, j: Row) => Linked(e, row, t, j) && filter(t) == True;
      var keepOn := (t: Row) => on(t, row);
      assert Select([row][..0], keepOn) == [] && keepOn(row);
      assert Select(src, keepOn) == [row];
      assert Join(src, js[..0], on) == [];
    }
  }

  function Deny(bad: seq<nat>): Filters { (path: seq<nat>, r: Row) => if path == bad then False else True }

  lemma DeniedIsAbsent(db: Db, e: Edge, p: Row, bad: seq<nat>)
    ensures !Present(Subquery(db, e, p, At(Deny(bad), bad)))
  {
    var filter := At(Deny(bad), bad);
    var src := Source(db, e, p);
    if e.card == ToMany && e.junction.Some? {
      JoinEmpty(src, Rows(db, e.junction.value.rel), (t: Row, j: Row) => Linked(e, p, t, j) && filter(t) == True);
    } else {
      SelectEmpty(src, (t: Row) => Correlated(e, p, t) && filter(t) == True);
    }
  }

  /** Below, nothing restricts: where all rows join, one filter empties an inner embed and its row stays. */
  lemma {:induction false} DeepInnerFails(relations: set<string>, columns: set<string>, path: seq<nat>,
                                          nodes: seq<Node>)
    returns (bad: seq<nat>)
    requires !NoInner(nodes) && Relations(nodes) <= relations && Columns(nodes) <= columns
    ensures |bad| > |path|
    ensures !Satisfied(OneRow(relations, Ones(columns)), Deny(bad), path, nodes, Ones(columns))
    decreases nodes
  {
    var row := Ones(columns);
    var db := OneRow(relations, row);
    var i :| 0 <= i < |nodes| && (nodes[i].inner || !NoInner(nodes[i].kids));
    var here := path + [i];
    if nodes[i].inner {
      bad := here;
      DeniedIsAbsent(db, nodes[i].edge, row, bad);
      assert !NodeSatisfied(db, Deny(bad), here, nodes[i], row);
    } else {
      KidsWithin(nodes, i);
      bad := DeepInnerFails(relations, columns, here, nodes[i].kids);
      OnesJoin(relations, columns, nodes[i].edge, At(Deny(bad), here));
      var rows := RowsOf(Subquery(db, nodes[i].edge, row, At(Deny(bad), here)));
      assert rows[0] == row;
      assert !NodeSatisfied(db, Deny(bad), here, nodes[i], row);
    }
  }

  lemma {:induction false} KidsWithin(nodes: seq<Node>, i: nat)
    requires i < |nodes|
    ensures EdgeRelations(nodes[i].edge) <= Relations(nodes) && Relations(nodes[i].kids) <= Relations(nodes)
    ensures EdgeColumns(nodes[i].edge) <= Columns(nodes) && Columns(nodes[i].kids) <= Columns(nodes)
  {
    if i < |nodes| - 1 {
      KidsWithin(nodes[..|nodes| - 1], i);
    }
  }

  lemma DeepInnerBreaks(nodes: seq<Node>, k: nat)
    requires k < |nodes| && !NoInner(nodes[k].kids)
    ensures !AlwaysSatisfied(nodes)
  {
    var relations, columns := Relations(nodes), Columns(nodes);
    var row := Ones(columns);
    var db := OneRow(relations, row);
    KidsWithin(nodes, k);
    var bad := DeepInnerFails(relations, columns, [k], nodes[k].kids);
    var f := Deny(bad);
    forall i | 0 <= i < |nodes| ensures Exists(db, nodes[i].edge, row, At(f, [i])) {
      KidsWithin(nodes, i);
      OnesJoin(relations, columns, nodes[i].edge, At(f, [i]));
    }
    assert Kept(db, f, nodes, row);
    KidsWithin(nodes, k);
    OnesJoin(relations, columns, nodes[k].edge, At(f, [k]));
    var rows := RowsOf(Subquery(db, nodes[k].edge, row, At(f, [k])));
    assert rows[0] == row && [] + [k] == [k];
    assert !NodeSatisfied(db, f, [] + [k], nodes[k], row);
    assert !Satisfied(db, f, [], nodes, row);
  }

  // ----- an inner embed that is not read as it is filtered -----

  /** A parent row with a value in every column that an edge joins by. */
  ghost predicate Full(p: Row, e: Edge) { forall i :: 0 <= i < |e.local| ==> Get(p, e.local[i]) != Null }

  /** The row whose columns hold what another row has in its own. */
  function Copied(cols: seq<string>, from: seq<string>, r: Row): Row
    requires |cols| == |from| && forall i, k :: 0 <= i < k < |cols| ==> cols[i] != cols[k]
  {
    map i | 0 <= i < |cols| :: cols[i] := Get(r, from[i])
  }

  lemma CopiedGets(cols: seq<string>, from: seq<string>, r: Row, i: nat)
    requires |cols| == |from| && NoRepeats(cols) && i < |cols|
    ensures Get(Copied(cols, from, r), cols[i]) == Get(r, from[i])
  {
    assert cols[i] in Copied(cols, from, r);
  }

  /** The same, with ones in some more columns. */
  function Padded(r: Row, cols: seq<string>): Row {
    map c | c in r.Keys + (set x | x in cols) :: if c in r then r[c] else Val("1")
  }

  lemma PaddedGets(r: Row, cols: seq<string>, c: string)
    requires c in r || c in cols
    ensures Get(Padded(r, cols), c) == if c in r then r[c] else Val("1")
  {
  }

  /** For every full parent row there are rows that join it, over any regular edge. */
  lemma Joining(e: Edge, p: Row) returns (t: Row, j: Row)
    requires Regular(e) && Full(p, e) && e.func.None?
    ensures if e.junction.Some? then Linked(e, p, t, j) else Correlated(e, p, t)
  {
    if e.junction.None? {
      t, j := Copied(e.foreign, e.local, p), map[];
      forall i | 0 <= i < |e.foreign| ensures Get(t, e.foreign[i]) == Get(p, e.local[i]) {
        CopiedGets(e.foreign, e.local, p, i);
      }
    } else {
      j := JunctionFor(e, p);
      t := Copied(e.foreign, e.junction.value.foreign, j);
      forall i | 0 <= i < |e.foreign| ensures Get(t, e.foreign[i]) == Get(j, e.junction.value.foreign[i]) {
        CopiedGets(e.foreign, e.junction.value.foreign, j, i);
      }
    }
  }

  lemma JunctionFor(e: Edge, p: Row) returns (j: Row)
    requires Regular(e) && Full(p, e) && e.junction.Some?
    ensures JoinCond(j, e.junction.value.local, p, e.local)
    ensures forall i :: 0 <= i < |e.foreign| ==> Get(j, e.junction.value.foreign[i]) != Null
  {
    var x := e.junction.value;
    var r := Copied(x.local, e.local, p);
    j := Padded(r, x.foreign);
    forall i | 0 <= i < |x.local| ensures Get(j, x.local[i]) == Get(p, e.local[i]) {
      CopiedGets(x.local, e.local, p, i);
      assert x.local[i] in r;
      PaddedGets(r, x.foreign, x.local[i]);
    }
    forall i | 0 <= i < |x.foreign| ensures Get(j, x.foreign[i]) != Null {
      PaddedGets(r, x.foreign, x.foreign[i]);
      if x.foreign[i] in r {
        CopiedFull(x.local, e.local, p, x.foreign[i]);
      }
    }
  }

  lemma CopiedFull(cols: seq<string>, from: seq<string>, r: Row, c: string)
    requires |cols| == |from| && NoRepeats(cols) && c in Copied(cols, from, r)
    requires forall i :: 0 <= i < |from| ==> Get(r, from[i]) != Null
    ensures Copied(cols, from, r)[c] != Null
  {
    var i :| 0 <= i < |cols| && cols[i] == c;
    CopiedGets(cols, from, r, i);
  }

  /** A row that copies some columns of another and has a value in some more. */
  lemma Filled(cols: seq<string>, from: seq<string>, r: Row, wanted: seq<string>) returns (p: Row)
    requires |cols| == |from| && NoRepeats(cols) && forall i :: 0 <= i < |from| ==> Get(r, from[i]) != Null
    ensures forall i :: 0 <= i < |cols| ==> Get(p, cols[i]) == Get(r, from[i])
    ensures forall c :: c in wanted ==> Get(p, c) != Null
  {
    var copy := Copied(cols, from, r);
    p := Padded(copy, wanted);
    forall i | 0 <= i < |cols| ensures Get(p, cols[i]) == Get(r, from[i]) {
      CopiedGets(cols, from, r, i);
      assert cols[i] in copy;
      PaddedGets(copy, wanted, cols[i]);
    }
    forall c | c in wanted ensures Get(p, c) != Null {
      PaddedGets(copy, wanted, c);
      if c in copy {
        CopiedFull(cols, from, r, c);
      }
    }
  }

  lemma OwnNamesGet(names: seq<string>, c: string)
    requires c in names
    ensures Get(OwnNames(names), c) == Val(c)
  {
  }

  /** A junction row that tells its columns apart. */
  lemma OwnJunction(x: Junction) returns (j: Row)
    ensures forall n :: 0 <= n < |x.local| ==> Get(j, x.local[n]) == Val(x.local[n])
    ensures forall n :: 0 <= n < |x.foreign| ==> Get(j, x.foreign[n]) == Val(x.foreign[n])
  {
    var names := x.local + x.foreign;
    j := OwnNames(names);
    forall n | 0 <= n < |x.local| ensures Get(j, x.local[n]) == Val(x.local[n]) {
      assert names[n] == x.local[n];
      OwnNamesGet(names, x.local[n]);
    }
    forall n | 0 <= n < |x.foreign| ensures Get(j, x.foreign[n]) == Val(x.foreign[n]) {
      assert names[|x.local| + n] == x.foreign[n];
      OwnNamesGet(names, x.foreign[n]);
    }
  }

  /**
  Where a junction's columns differ, a row can join through it and not directly, whatever else the parent row has.
  */
  lemma UnsharedRows(e: Edge, i: nat, wanted: seq<string>) returns (p: Row, t: Row, j: Row)
    requires Regular(e) && e.junction.Some? && i < |e.local| && i < |e.foreign| && !SharesColumn(e, i)
    ensures Linked(e, p, t, j) && !Correlated(e, p, t) && forall c :: c in wanted ==> Get(p, c) != Null
  {
    var x := e.junction.value;
    j := OwnJunction(x);
    t := Filled(e.foreign, x.foreign, j, []);
    p := Filled(e.local, x.local, j, wanted);
    assert Get(t, e.foreign[i]) == Val(x.foreign[i]) && Get(p, e.local[i]) == Val(x.local[i]);
  }

  function LocalColumns(nodes: seq<Node>): seq<string> {
    if nodes == [] then [] else LocalColumns(nodes[..|nodes| - 1]) + nodes[|nodes| - 1].edge.local
  }

  lemma {:induction false} LocalWithin(nodes: seq<Node>, i: nat, n: nat)
    requires i < |nodes| && n < |nodes[i].edge.local|
    ensures nodes[i].edge.local[n] in LocalColumns(nodes)
  {
    if i < |nodes| - 1 {
      LocalWithin(nodes[..|nodes| - 1], i, n);
    } else {
      var init := LocalColumns(nodes[..i]);
      assert LocalColumns(nodes)[|init| + n] == nodes[i].edge.local[n];
    }
  }

  ghost predicate Joins(e: Edge, p: Row, t: Row, j: Row) {
    e.func.None? ==> if e.junction.Some? then Linked(e, p, t, j) else Correlated(e, p, t)
  }

  /** A row for each node that joins one full parent row. */
  lemma {:induction false} AllJoining(nodes: seq<Node>, p: Row) returns (ts: seq<Row>, js: seq<Row>)
    requires forall i :: 0 <= i < |nodes| ==> Regular(nodes[i].edge) && Full(p, nodes[i].edge)
    ensures |ts| == |nodes| && |js| == |nodes|
    ensures forall i :: 0 <= i < |nodes| ==> Joins(nodes[i].edge, p, ts[i], js[i])
  {
    if nodes == [] {
      ts, js := [], [];
    } else {
      var last := nodes[|nodes| - 1];
      ts, js := AllJoining(nodes[..|nodes| - 1], p);
      var t: Row, j: Row := map[], map[];
      if last.edge.func.None? {
        t, j := Joining(last.edge, p);
      }
      ts, js := ts + [t], js + [j];
    }
  }

  /** The rows that the nodes put into one relation. */
  function RowsFor(nodes: seq<Node>, ts: seq<Row>, js: seq<Row>, rel: string): seq<Row>
    requires |ts| == |nodes| && |js| == |nodes|
  {
    if nodes == [] then []
    else
      var n := |nodes| - 1;
      var e := nodes[n].edge;
      RowsFor(nodes[..n], ts[..n], js[..n], rel) + (if e.target == rel then [ts[n]] else []) +
      if e.junction.Some? && e.junction.value.rel == rel then [js[n]] else []
  }

  lemma {:induction false} RowsThere(nodes: seq<Node>, ts: seq<Row>, js: seq<Row>, i: nat)
    requires |ts| == |nodes| && |js| == |nodes| && i < |nodes|
    ensures var e := nodes[i].edge;
            && ts[i] in RowsFor(nodes, ts, js, e.target)
            && (e.junction.Some? ==> js[i] in RowsFor(nodes, ts, js, e.junction.value.rel))
  {
    var n := |nodes| - 1;
    if i < n {
      RowsThere(nodes[..n], ts[..n], js[..n], i);
    }
  }

  function Tables(nodes: seq<Node>, ts: seq<Row>, js: seq<Row>): Db
    requires |ts| == |nodes| && |js| == |nodes|
  {
    Db(map r | r in Relations(nodes) :: RowsFor(nodes, ts, js, r), (f: string, p: Row) => [map[]])
  }

  lemma JoinedExists(nodes: seq<Node>, ts: seq<Row>, js: seq<Row>, p: Row, i: nat, filter: Row -> Truth)
    requires |ts| == |nodes| && |js| == |nodes| && i < |nodes| && Regular(nodes[i].edge)
    requires Joins(nodes[i].edge, p, ts[i], js[i])
    requires filter(if nodes[i].edge.func.Some? then map[] else ts[i]) == True
    ensures Exists(Tables(nodes, ts, js), nodes[i].edge, p, filter)
  {
    var db, e := Tables(nodes, ts, js), nodes[i].edge;
    var src := Source(db, e, p);
    if e.func.Some? {
      assert src[0] == map[];
    } else {
      RowsThere(nodes, ts, js, i);
      KidsWithin(nodes, i);
      var a :| 0 <= a < |src| && src[a] == ts[i];
      if e.junction.Some? {
        var rows := Rows(db, e.junction.value.rel);
        var b :| 0 <= b < |rows| && rows[b] == js[i];
      }
    }
  }

  function Only(k: nat, t: Row): Filters { (path: seq<nat>, r: Row) => if path == [k] && r != t then False else True }

  lemma UnreadBreaks(nodes: seq<Node>, k: nat)
    requires forall i :: 0 <= i < |nodes| ==> Regular(nodes[i].edge)
    requires k < |nodes| && nodes[k].inner && !ReadAsFiltered(nodes[k].edge)
    ensures !AlwaysSatisfied(nodes)
  {
    var e := nodes[k].edge;
    var n :| 0 <= n < |e.local| && n < |e.foreign| && !SharesColumn(e, n);
    var p, t, j := UnsharedRows(e, n, LocalColumns(nodes));
    forall i | 0 <= i < |nodes| ensures Full(p, nodes[i].edge) {
      forall m | 0 <= m < |nodes[i].edge.local|
          ensures Get(p, nodes[i].edge.local[m]) != Null { LocalWithin(nodes, i, m); }
    }
    var ts, js := AllJoining(nodes, p);
    ts, js := ts[k := t], js[k := j];
    var db, f := Tables(nodes, ts, js), Only(k, t);
    forall i | 0 <= i < |nodes| && nodes[i].inner ensures Exists(db, nodes[i].edge, p, At(f, [i])) {
      assert [i] == [k] <==> i == k;
      JoinedExists(nodes, ts, js, p, i, At(f, [i]));
    }
    assert Kept(db, f, nodes, p);
    ToOnePresent(db, e, p, At(f, [k]));
    assert !Present(Subquery(db, e, p, At(f, [k])));
    assert [] + [k] == [k];
    assert !NodeSatisfied(db, f, [] + [k], nodes[k], p);
    assert !Satisfied(db, f, [], nodes, p);
  }

  // ----- so it is exact -----

  /**
  Every kept or embedded row has each of its inner embeds, on every database and under all filters, exactly when no
  embed below the top level is inner, and no inner one is to-one across a junction that reaches its ends by
  different columns.
  */
  lemma AlwaysSatisfiedIffSound(nodes: seq<Node>)
    requires forall i :: 0 <= i < |nodes| ==> Regular(nodes[i].edge)
    ensures AlwaysSatisfied(nodes) <==> Sound(nodes)
  {
    if Sound(nodes) {
      forall db: Db, f: Filters, p: Row | Kept(db, f, nodes, p) ensures Satisfied(db, f, [], nodes, p) {
        SoundSuffices(db, f, nodes, p);
      }
    } else {
      var k :| 0 <= k < |nodes| &&
               !(NoInner(nodes[k].kids) && (nodes[k].inner ==> ReadAsFiltered(nodes[k].edge)));
      if !NoInner(nodes[k].kids) {
        DeepInnerBreaks(nodes, k);
      } else {
        UnreadBreaks(nodes, k);
      }
    }
  }

  /** For one: parent?select=*,child!inner(*,grand!inner(*)), over any two edges, keeps a child that has no grand. */
  lemma NestedInnerBreaks(child: Edge, grand: Edge)
    ensures !AlwaysSatisfied([Node(child, true, [Node(grand, true, [])])])
  {
    var nodes := [Node(child, true, [Node(grand, true, [])])];
    assert nodes[0].kids[0].inner;
    DeepInnerBreaks(nodes, 0);
  }
}
