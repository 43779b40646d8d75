/**
Resource embedding: the relationships derived from foreign keys (schema/relationship.go) and the two
queries an embed is lowered to (backend/sqlgen/embed.go), read as relational algebra on a database.
*/
module Embedding {
  import opened Wrappers
  import opened Ir

  // ----- the schema -----

  datatype ForeignKey = ForeignKey(name: string, columns: seq<string>, target: string, refColumns: seq<string>)

  datatype Relation = Relation(primaryKey: seq<string>, unique: seq<seq<string>>, foreignKeys: seq<ForeignKey>)

  type Schema = map<string, Relation>

  datatype Card = ToOne | ToMany

  datatype Junction = Junction(rel: string, local: seq<string>, foreign: seq<string>)

  /** An embeddable edge. `func` marks a computed relationship, whose rows a function of the parent row yields. */
  datatype Edge = Edge(name: string, card: Card, target: string, local: seq<string>, foreign: seq<string>,
                       junction: Option<Junction>, func: Option<string>)

  predicate SameColumnSet(a: seq<string>, b: seq<string>) {
    |a| == |b| && a != [] && forall i :: 0 <= i < |a| ==> a[i] in b
  }

  predicate IsUnique(r: Relation, cols: seq<string>) {
    SameColumnSet(r.primaryKey, cols) || exists i :: 0 <= i < |r.unique| && SameColumnSet(r.unique[i], cols)
  }

  predicate IsSubset(cols: seq<string>, of: seq<string>) {
    cols != [] && forall i :: 0 <= i < |cols| ==> cols[i] in of
  }

  predicate JunctionKey(j: Relation, fk: ForeignKey, end: string) {
    fk.target == end && IsSubset(fk.columns, j.primaryKey)
  }

  function Forward(fk: ForeignKey): Edge {
    Edge(fk.name, ToOne, fk.target, fk.columns, fk.refColumns, None, None)
  }

  function Backward(s: Schema, target: string, fk: ForeignKey): Edge
    requires target in s
  {
    var card := if IsUnique(s[target], fk.columns) then ToOne else ToMany;
    Edge(fk.name, card, target, fk.refColumns, fk.columns, None, None)
  }

  function Across(j: string, target: string, toParent: ForeignKey, toTarget: ForeignKey): Edge {
    var junction := Junction(j, toParent.columns, toTarget.columns);
    Edge(j, ToMany, target, toParent.refColumns, toTarget.refColumns, Some(junction), None)
  }

  /** Two distinct keys of a junction, one to each end. */
  predicate Crosses(j: Relation, fks: seq<ForeignKey>, parent: string, target: string, a: nat, b: nat)
    requires a < |fks| && b < |fks|
  {
    a != b && JunctionKey(j, fks[a], parent) && JunctionKey(j, fks[b], target)
  }

  /** Where an edge comes from: a key of the parent, a key of the target, or two keys of a junction. */
  datatype Origin = Out(key: nat) | Into(key: nat) | Via(junction: string, toParent: nat, toTarget: nat)

  /** The foreign keys give rise to an edge. */
  predicate Arises(s: Schema, parent: string, target: string, o: Origin)
    requires parent in s && target in s
  {
    match o
    case Out(i) => i < |s[parent].foreignKeys| && s[parent].foreignKeys[i].target == target
    case Into(i) => i < |s[target].foreignKeys| && s[target].foreignKeys[i].target == parent
    case Via(j, a, b) =>
      && j in s && j != parent && j != target && a < |s[j].foreignKeys| && b < |s[j].foreignKeys|
      && Crosses(s[j], s[j].foreignKeys, parent, target, a, b)
  }

  function EdgeOf(s: Schema, parent: string, target: string, o: Origin): Edge
    requires parent in s && target in s && Arises(s, parent, target, o)
  {
    match o
    case Out(i) => Forward(s[parent].foreignKeys[i])
    case Into(i) => Backward(s, target, s[target].foreignKeys[i])
    case Via(j, a, b) => Across(j, target, s[j].foreignKeys[a], s[j].foreignKeys[b])
  }

  ghost predicate Derived(s: Schema, parent: string, target: string, e: Edge)
    requires parent in s && target in s
  {
    exists o :: Arises(s, parent, target, o) && e == EdgeOf(s, parent, target, o)
  }

  /** `edges` lists the edges of the origins in `from`, each origin once. */
  ghost predicate Lists(s: Schema, parent: string, target: string, edges: seq<Edge>, from: seq<Origin>)
    requires parent in s && target in s
  {
    && |edges| == |from| && (forall i, j :: 0 <= i < j < |from| ==> from[i] != from[j])
    && forall i :: 0 <= i < |from| ==>
         Arises(s, parent, target, from[i]) && edges[i] == EdgeOf(s, parent, target, from[i])
  }

  lemma ListsAppend(s: Schema, parent: string, target: string, edges: seq<Edge>, from: seq<Origin>,
                    more: seq<Edge>, origins: seq<Origin>)
    requires parent in s && target in s
    requires Lists(s, parent, target, edges, from) && Lists(s, parent, target, more, origins)
    requires forall o :: o in from ==> o !in origins
    ensures Lists(s, parent, target, edges + more, from + origins)
  {
    var all := from + origins;
    forall i, j | 0 <= i < j < |all| ensures all[i] != all[j] {
      assert i < |from| ==> all[i] in from;
      assert j >= |from| ==> all[j] in origins;
    }
  }

  lemma ListsNext(s: Schema, parent: string, target: string, edges: seq<Edge>, from: seq<Origin>, o: Origin)
    requires parent in s && target in s && Lists(s, parent, target, edges, from)
    requires o !in from && Arises(s, parent, target, o)
    ensures Lists(s, parent, target, edges + [EdgeOf(s, parent, target, o)], from + [o])
  {
    ListsAppend(s, parent, target, edges, from, [EdgeOf(s, parent, target, o)], [o]);
  }

  /** Exactly one edge for every origin of some sort that arises. */
  ghost predicate OnePerOrigin(s: Schema, parent: string, target: string, edges: seq<Edge>, sort: Origin -> bool)
    requires parent in s && target in s
  {
    exists from :: Lists(s, parent, target, edges, from) &&
                   forall o :: o in from <==> sort(o) && Arises(s, parent, target, o)
  }

  lemma Origins(s: Schema, parent: string, target: string, edges: seq<Edge>, sort: Origin -> bool)
    returns (from: seq<Origin>)
    requires parent in s && target in s && OnePerOrigin(s, parent, target, edges, sort)
    ensures Lists(s, parent, target, edges, from)
    ensures forall o :: o in from <==> sort(o) && Arises(s, parent, target, o)
  {
    from :| Lists(s, parent, target, edges, from) && forall o :: o in from <==> sort(o) && Arises(s, parent, target, o);
  }

  /** The foreign keys of the parent to the target. */
  method ForwardEdges(s: Schema, parent: string, target: string) returns (out: seq<Edge>)
    requires parent in s && target in s
    ensures OnePerOrigin(s, parent, target, out, (o: Origin) => o.Out?)
  {
    out := [];
    ghost var from: seq<Origin> := [];
    var fks := s[parent].foreignKeys;
    for i := 0 to |fks|
      invariant Lists(s, parent, target, out, from)
      invariant forall o :: o in from <==> o.Out? && o.key < i && Arises(s, parent, target, o)
    {
      if fks[i].target == target {
        ListsNext(s, parent, target, out, from, Out(i));
        out, from := out + [Forward(fks[i])], from + [Out(i)];
      }
    }
  }

  /** The foreign keys of the target to the parent, seen from there. */
  method BackwardEdges(s: Schema, parent: string, target: string) returns (out: seq<Edge>)
    requires parent in s && target in s
    ensures OnePerOrigin(s, parent, target, out, (o: Origin) => o.Into?)
  {
    out := [];
    ghost var from: seq<Origin> := [];
    var fks := s[target].foreignKeys;
    for i := 0 to |fks|
      invariant Lists(s, parent, target, out, from)
      invariant forall o :: o in from <==> o.Into? && o.key < i && Arises(s, parent, target, o)
    {
      if fks[i].target == parent {
        ListsNext(s, parent, target, out, from, Into(i));
        out, from := out + [Backward(s, target, fks[i])], from + [Into(i)];
      }
    }
  }

  /** The edges across one junction with one of its keys to the parent. */
  method JunctionRow(s: Schema, j: string, parent: string, target: string, a: nat) returns (out: seq<Edge>)
    requires parent in s && target in s && j in s && j != parent && j != target && a < |s[j].foreignKeys|
    requires JunctionKey(s[j], s[j].foreignKeys[a], parent)
    ensures OnePerOrigin(s, parent, target, out, (o: Origin) => o.Via? && o.junction == j && o.toParent == a)
  {
    out := [];
    ghost var from: seq<Origin> := [];
    var fks := s[j].foreignKeys;
    for b := 0 to |fks|
      invariant Lists(s, parent, target, out, from)
      invariant forall o :: o in from <==>
                  o.Via? && o.junction == j && o.toParent == a && o.toTarget < b && Arises(s, parent, target, o)
    {
      if a != b && JunctionKey(s[j], fks[b], target) {
        ListsNext(s, parent, target, out, from, Via(j, a, b));
        out, from := out + [Across(j, target, fks[a], fks[b])], from + [Via(j, a, b)];
      }
    }
  }

  /** The edges across one junction: one for every two of its keys, to both ends, that are in its primary key. */
  method JunctionEdges(s: Schema, j: string, parent: string, target: string) returns (out: seq<Edge>)
    requires parent in s && target in s && j in s && j != parent && j != target
    ensures OnePerOrigin(s, parent, target, out, (o: Origin) => o.Via? && o.junction == j)
  {
    out := [];
    ghost var from: seq<Origin> := [];
    var fks := s[j].foreignKeys;
    for a := 0 to |fks|
      invariant Lists(s, parent, target, out, from)
      invariant forall o :: o in from <==>
                  o.Via? && o.junction == j && o.toParent < a && Arises(s, parent, target, o)
    {
      if JunctionKey(s[j], fks[a], parent) {
        var more := JunctionRow(s, j, parent, target, a);
        ghost var across := (o: Origin) => o.Via? && o.junction == j && o.toParent == a;
        ghost var origins := Origins(s, parent, target, more, across);
        ListsAppend(s, parent, target, out, from, more, origins);
        out, from := out + more, from + origins;
      }
    }
  }

  method AcrossEdges(s: Schema, order: seq<string>, parent: string, target: string) returns (out: seq<Edge>)
    requires parent in s && target in s && (forall k :: k in order <==> k in s)
    requires forall i, j :: 0 <= i < j < |order| ==> order[i] != order[j]
    ensures OnePerOrigin(s, parent, target, out, (o: Origin) => o.Via?)
  {
    out := [];
    ghost var from: seq<Origin> := [];
    for n := 0 to |order|
      invariant Lists(s, parent, target, out, from)
      invariant forall o :: o in from <==> o.Via? && o.junction in order[..n] && Arises(s, parent, target, o)
    {
      var j := order[n];
      assert order[..n + 1] == order[..n] + [j] && j !in order[..n];
      if j != parent && j != target {
        var more := JunctionEdges(s, j, parent, target);
        ghost var across := (o: Origin) => o.Via? && o.junction == j;
        ghost var origins := Origins(s, parent, target, more, across);
        ListsAppend(s, parent, target, out, from, more, origins);
        out, from := out + more, from + origins;
      }
    }
    assert order[..|order|] == order;
  }

  /** One edge for every key or pair of keys that gives one, so more than one means an ambiguous embed. */
  method Relationships(s: Schema, order: seq<string>, parent: string, target: string) returns (out: seq<Edge>)
    requires parent in s && target in s && (forall k :: k in order <==> k in s)
    requires forall i, j :: 0 <= i < j < |order| ==> order[i] != order[j]
    ensures OnePerOrigin(s, parent, target, out, (o: Origin) => true)
  {
    var forward := ForwardEdges(s, parent, target);
    var backward := BackwardEdges(s, parent, target);
    var across := AcrossEdges(s, order, parent, target);
    out := forward + backward + across;
    AllOrigins(s, parent, target, forward, backward, across);
  }

  lemma AllOrigins(s: Schema, parent: string, target: string, forward: seq<Edge>, backward: seq<Edge>,
                   across: seq<Edge>)
    requires parent in s && target in s
    requires OnePerOrigin(s, parent, target, forward, (o: Origin) => o.Out?)
    requires OnePerOrigin(s, parent, target, backward, (o: Origin) => o.Into?)
    requires OnePerOrigin(s, parent, target, across, (o: Origin) => o.Via?)
    ensures OnePerOrigin(s, parent, target, forward + backward + across, (o: Origin) => true)
  {
    var f := Origins(s, parent, target, forward, (o: Origin) => o.Out?);
    var b := Origins(s, parent, target, backward, (o: Origin) => o.Into?);
    var a := Origins(s, parent, target, across, (o: Origin) => o.Via?);
    ListsAppend(s, parent, target, forward, f, backward, b);
    ListsAppend(s, parent, target, forward + backward, f + b, across, a);
    assert forall o :: o in f + b + a <==> Arises(s, parent, target, o);
  }

  // ----- the two queries -----

  datatype Cell = Null | Val(s: string)
  type Row = map<string, Cell>

  datatype Db = Db(tables: map<string, seq<Row>>, call: (string, Row) -> seq<Row>)

  function Get(r: Row, c: string): Cell { if c in r then r[c] else Null }

  function Rows(db: Db, rel: string): seq<Row> { if rel in db.tables then db.tables[rel] else [] }

  /** An equi-join is true when every pair of columns is equal and not NULL. */
  predicate JoinCond(a: Row, acols: seq<string>, b: Row, bcols: seq<string>) {
    forall i :: 0 <= i < |acols| && i < |bcols| ==> Get(a, acols[i]) != Null && Get(a, acols[i]) == Get(b, bcols[i])
  }

  function Source(db: Db, e: Edge, parent: Row): seq<Row> {
    if e.func.Some? then db.call(e.func.value, parent) else Rows(db, e.target)
  }

  predicate Correlated(e: Edge, parent: Row, t: Row) {
    e.func.Some? || JoinCond(t, e.foreign, parent, e.local)
  }

  predicate Linked(e: Edge, parent: Row, t: Row, j: Row)
    requires e.junction.Some?
  {
    JoinCond(j, e.junction.value.foreign, t, e.foreign) && JoinCond(j, e.junction.value.local, parent, e.local)
  }

  // ----- what a derived edge joins -----

  /** One row references another by a foreign key: column by column, and not through NULLs. */
  predicate References(from: Row, fk: ForeignKey, to: Row) {
    forall i :: 0 <= i < |fk.columns| && i < |fk.refColumns| ==>
        Get(from, fk.columns[i]) == Get(to, fk.refColumns[i]) != Null
  }

  /**
  The edge of a key of the parent joins a parent row with the rows it references, the edge of a key of the target with
  the rows that reference it, and an edge across a junction with those that some junction row references along with it.
  */
  lemma EdgeJoins(s: Schema, parent: string, target: string, o: Origin, p: Row, t: Row, j: Row)
    requires parent in s && target in s && Arises(s, parent, target, o)
    ensures var e := EdgeOf(s, parent, target, o);
            && e.target == target && e.func.None?
            && match o
               case Out(i) =>
                 && e.junction.None? && e.card == ToOne
                 && (Correlated(e, p, t) <==> References(p, s[parent].foreignKeys[i], t))
               case Into(i) =>
                 && e.junction.None?
                 && (Correlated(e, p, t) <==> References(t, s[target].foreignKeys[i], p))
               case Via(m, a, b) =>
                 && e.junction.Some? && e.junction.value.rel == m && e.card == ToMany
                 && (Linked(e, p, t, j) <==>
                       References(j, s[m].foreignKeys[a], p) && References(j, s[m].foreignKeys[b], t))
  {
  }

  ghost predicate SameSet(a: seq<string>, b: seq<string>) { a != [] && forall c :: c in a <==> c in b }

  /** Which keys give an edge: those between the ends, and those in a third relation's primary key, two at a time. */
  lemma ArisesIff(s: Schema, parent: string, target: string, o: Origin)
    requires parent in s && target in s
    ensures Arises(s, parent, target, o) <==>
            match o
            case Out(i) => i < |s[parent].foreignKeys| && s[parent].foreignKeys[i].target == target
            case Into(i) => i < |s[target].foreignKeys| && s[target].foreignKeys[i].target == parent
            case Via(m, a, b) =>
              && m in s && m != parent && m != target && a != b && a < |s[m].foreignKeys| && b < |s[m].foreignKeys|
              && var toParent, toTarget := s[m].foreignKeys[a], s[m].foreignKeys[b];
                 && toParent.target == parent && toTarget.target == target
                 && toParent.columns != [] && (forall c :: c in toParent.columns ==> c in s[m].primaryKey)
                 && toTarget.columns != [] && (forall c :: c in toTarget.columns ==> c in s[m].primaryKey)
  {
  }

  ghost function Distinct(cols: seq<string>): set<string> { set c | c in cols }

  lemma {:induction false} DistinctSize(cols: seq<string>)
    requires NoRepeats(cols)
    ensures |Distinct(cols)| == |cols|
  {
    if cols != [] {
      var n := |cols| - 1;
      DistinctSize(cols[..n]);
      assert cols == cols[..n] + [cols[n]];
      assert Distinct(cols) == Distinct(cols[..n]) + {cols[n]};
    }
  }

  lemma {:induction false} SubsetOfSameSize<T>(a: set<T>, b: set<T>)
    requires a <= b && |a| == |b|
    ensures a == b
  {
    if x :| x in a {
      SubsetOfSameSize(a - {x}, b - {x});
    }
  }

  lemma SameColumnSetMeans(a: seq<string>, b: seq<string>)
    requires NoRepeats(a) && NoRepeats(b)
    ensures SameColumnSet(a, b) <==> SameSet(a, b)
  {
    DistinctSize(a);
    DistinctSize(b);
    if SameColumnSet(a, b) {
      SubsetOfSameSize(Distinct(a), Distinct(b));
      assert forall c :: (c in a <==> c in Distinct(a)) && (c in b <==> c in Distinct(b));
    }
    if SameSet(a, b) {
      assert Distinct(a) == Distinct(b);
    }
  }

  /** A key of the target gives a to-one edge exactly if its columns are the primary key's or a unique constraint's. */
  lemma BackwardToOneIff(s: Schema, parent: string, target: string, o: Origin)
    requires parent in s && target in s && Arises(s, parent, target, o) && o.Into?
    requires NoRepeats(s[target].primaryKey) && NoRepeats(s[target].foreignKeys[o.key].columns)
    requires forall u :: u in s[target].unique ==> NoRepeats(u)
    ensures EdgeOf(s, parent, target, o).card == ToOne <==>
            var cols := s[target].foreignKeys[o.key].columns;
            SameSet(s[target].primaryKey, cols) || exists u :: u in s[target].unique && SameSet(u, cols)
  {
    var r := s[target];
    var cols := r.foreignKeys[o.key].columns;
    SameColumnSetMeans(r.primaryKey, cols);
    forall i | 0 <= i < |r.unique| ensures SameColumnSet(r.unique[i], cols) <==> SameSet(r.unique[i], cols) {
      assert r.unique[i] in r.unique;
      SameColumnSetMeans(r.unique[i], cols);
    }
  }

  function Select(rows: seq<Row>, keep: Row -> bool): (r: seq<Row>)
  {
    if rows == [] then []
    else Select(rows[..|rows| - 1], keep) + if keep(rows[|rows| - 1]) then [rows[|rows| - 1]] else []
  }

  /** Each row once per junction row that links it. */
  function Join(rows: seq<Row>, js: seq<Row>, on: (Row, Row) -> bool): seq<Row> {
    if js == [] then [] else Join(rows, js[..|js| - 1], on) + Select(rows, t => on(t, js[|js| - 1]))
  }

  datatype Embedded = Object(row: Option<Row>) | Array(rows: seq<Row>)

  /** The embed's own subquery. The to-one form correlates directly and takes one row; it does not cross a junction. */
  function Subquery(db: Db, e: Edge, parent: Row, filter: Row -> Truth): Embedded {
    if e.card == ToOne then
      var rows := Select(Source(db, e, parent), t => Correlated(e, parent, t) && filter(t) == True);
      Object(if rows == [] then None else Some(rows[0]))
    else if e.junction.Some? then
      var js := Rows(db, e.junction.value.rel);
      Array(Join(Source(db, e, parent), js, (t, j) => Linked(e, parent, t, j) && filter(t) == True))
    else
      Array(Select(Source(db, e, parent), t => Correlated(e, parent, t) && filter(t) == True))
  }

  /** The EXISTS that an inner embed adds to the parent's WHERE. */
  ghost predicate Exists(db: Db, e: Edge, parent: Row, filter: Row -> Truth) {
    var src := Source(db, e, parent);
    if e.junction.Some? then
      var js := Rows(db, e.junction.value.rel);
      exists i, k :: 0 <= i < |src| && 0 <= k < |js| && Linked(e, parent, src[i], js[k]) && filter(src[i]) == True
    else
      exists i :: 0 <= i < |src| && Correlated(e, parent, src[i]) && filter(src[i]) == True
  }

  predicate Present(v: Embedded) {
    match v case Object(r) => r.Some? case Array(rs) => rs != []
  }

  lemma {:induction false} SelectEmpty(rows: seq<Row>, keep: Row -> bool)
    ensures Select(rows, keep) == [] <==> forall i :: 0 <= i < |rows| ==> !keep(rows[i])
  {
    if rows != [] {
      var init, last := rows[..|rows| - 1], rows[|rows| - 1];
      SelectEmpty(init, keep);
      assert Select(rows, keep) == Select(init, keep) + if keep(last) then [last] else [];
      assert forall i :: 0 <= i < |init| ==> init[i] == rows[i];
    }
  }

  lemma {:induction false} JoinEmpty(rows: seq<Row>, js: seq<Row>, on: (Row, Row) -> bool)
    ensures Join(rows, js, on) == [] <==> forall i, k :: 0 <= i < |rows| && 0 <= k < |js| ==> !on(rows[i], js[k])
  {
    if js != [] {
      JoinEmpty(rows, js[..|js| - 1], on);
      SelectEmpty(rows, t => on(t, js[|js| - 1]));
    }
  }

  /** An inner embed keeps a parent row exactly when the embed's own value is there. */
  lemma ExistsIffPresent(db: Db, e: Edge, parent: Row, filter: Row -> Truth)
    requires e.card == ToMany || e.junction.None?
    ensures Exists(db, e, parent, filter) <==> Present(Subquery(db, e, parent, filter))
  {
    var src := Source(db, e, parent);
    if e.junction.Some? {
      var on := (t: Row, j: Row) => Linked(e, parent, t, j) && filter(t) == True;
      JoinEmpty(src, Rows(db, e.junction.value.rel), on);
    } else {
      var keep := (t: Row) => Correlated(e, parent, t) && filter(t) == True;
      SelectEmpty(src, keep);
    }
  }

  ghost predicate AgreesEverywhere(e: Edge) {
    forall db: Db, parent: Row, filter: Row -> Truth ::
      Exists(db, e, parent, filter) <==> Present(Subquery(db, e, parent, filter))
  }

  function AllOnes(cols: seq<string>): Row { map c | c in cols :: Val("1") }

  lemma OnesCorrelate(e: Edge, row: Row)
    requires row == AllOnes(e.local + e.foreign)
    ensures Correlated(e, row, row)
  {
    var cols := e.local + e.foreign;
    assert forall i :: 0 <= i < |e.local| ==> cols[i] == e.local[i];
    assert forall i :: 0 <= i < |e.foreign| ==> cols[|e.local| + i] == e.foreign[i];
    forall i | 0 <= i < |e.foreign| && i < |e.local|
      ensures Get(row, e.foreign[i]) == Val("1") && Get(row, e.local[i]) == Val("1")
    {
      assert e.foreign[i] in cols && e.local[i] in cols;
    }
  }

  /** With an empty junction, EXISTS drops a parent whose to-one embed is there. */
  lemma ToOneJunctionDiffers(e: Edge)
    requires e.card == ToOne && e.junction.Some? && (e.func.None? ==> e.junction.value.rel != e.target)
    ensures !AgreesEverywhere(e)
  {
    var row := AllOnes(e.local + e.foreign);
    var j := e.junction.value.rel;
    var db := Db(map[e.target := [row]] - {j}, (f, p) => [row]);
    var yes := (t: Row) => True;
    var src := Source(db, e, row);
    OnesCorrelate(e, row);
    assert src == [row] && Rows(db, j) == [];
    var keep := (t: Row) => Correlated(e, row, t) && yes(t) == True;
    SelectEmpty(src, keep);
    assert keep(src[0]);
    assert Present(Subquery(db, e, row, yes));
    assert !Exists(db, e, row, yes);
  }

  /**
  Joining through a junction is, row by row, joining directly: a row that joins the parent also joins it through itself,
  and a row that joins it through any row joins it.
  */
  ghost predicate JoinsAlike(e: Edge)
    requires e.junction.Some?
  {
    && (forall p: Row, t: Row :: Correlated(e, p, t) ==> Linked(e, p, t, t))
    && (forall p: Row, t: Row, j: Row :: Linked(e, p, t, j) ==> Correlated(e, p, t))
  }

  /** The to-one form sees a row exactly when one is correlated and passes the filter. */
  lemma ToOnePresent(db: Db, e: Edge, parent: Row, filter: Row -> Truth)
    requires e.card == ToOne
    ensures var src := Source(db, e, parent);
            Present(Subquery(db, e, parent, filter)) <==>
            exists i :: 0 <= i < |src| && Correlated(e, parent, src[i]) && filter(src[i]) == True
  {
    var keep := (t: Row) => Correlated(e, parent, t) && filter(t) == True;
    SelectEmpty(Source(db, e, parent), keep);
  }

  lemma SelfJunctionAgrees(e: Edge)
    requires e.card == ToOne && e.junction.Some? && e.func.None? && e.junction.value.rel == e.target && JoinsAlike(e)
    ensures AgreesEverywhere(e)
  {
    forall db: Db, parent: Row, filter: Row -> Truth
      ensures Exists(db, e, parent, filter) <==> Present(Subquery(db, e, parent, filter))
    {
      ToOnePresent(db, e, parent, filter);
      var src := Source(db, e, parent);
      if i :| 0 <= i < |src| && Correlated(e, parent, src[i]) && filter(src[i]) == True {
        assert Linked(e, parent, src[i], src[i]);
      }
    }
  }

  /** A row that joins the parent, but not through itself, is embedded and yet dropped. */
  lemma UnlinkedDiffers(e: Edge, p: Row, t: Row)
    requires e.card == ToOne && e.junction.Some? && e.func.None? && e.junction.value.rel == e.target
    requires Correlated(e, p, t) && !Linked(e, p, t, t)
    ensures !AgreesEverywhere(e)
  {
    var rows, yes := [t], (r: Row) => True;
    var db := Db(map[e.target := rows], (f, p) => []);
    ToOnePresent(db, e, p, yes);
    assert Source(db, e, p) == rows && rows[0] == t;
    assert Present(Subquery(db, e, p, yes)) && !Exists(db, e, p, yes);
  }

  /** A row that joins the parent only through another one keeps it, and is not embedded. */
  lemma UncorrelatedDiffers(e: Edge, p: Row, t: Row, j: Row)
    requires e.card == ToOne && e.junction.Some? && e.func.None? && e.junction.value.rel == e.target
    requires Linked(e, p, t, j) && !Correlated(e, p, t)
    ensures !AgreesEverywhere(e)
  {
    var rows, only := [t, j], (r: Row) => if r == t then True else False;
    var db := Db(map[e.target := rows], (f, p) => []);
    ToOnePresent(db, e, p, only);
    assert Source(db, e, p) == rows && rows[0] == t && rows[1] == j;
    assert Exists(db, e, p, only) && !Present(Subquery(db, e, p, only));
  }

  /**
  The two queries agree on every database exactly when the edge is not a to-one edge across a junction: that form, which
  only a declared relationship can have, is filtered through the junction but not read through it. The one exception is
  a junction that is the target itself and joins as the target does.
  */
  lemma AgreesIffNotToOneJunction(e: Edge)
    ensures AgreesEverywhere(e) <==>
            (e.card == ToOne && e.junction.Some? ==>
               e.func.None? && e.junction.value.rel == e.target && JoinsAlike(e))
  {
    if e.card == ToOne && e.junction.Some? {
      if e.func.Some? || e.junction.value.rel != e.target {
        ToOneJunctionDiffers(e);
      } else if JoinsAlike(e) {
        SelfJunctionAgrees(e);
      } else if p: Row, t: Row :| Correlated(e, p, t) && !Linked(e, p, t, t) {
        UnlinkedDiffers(e, p, t);
      } else {
        var p: Row, t: Row, j: Row :| Linked(e, p, t, j) && !Correlated(e, p, t);
        UncorrelatedDiffers(e, p, t, j);
      }
    } else {
      forall db: Db, parent: Row, filter: Row -> Truth
        ensures Exists(db, e, parent, filter) <==> Present(Subquery(db, e, parent, filter))
      {
        ExistsIffPresent(db, e, parent, filter);
      }
    }
  }

  ghost predicate NoRepeats(cols: seq<string>) { forall i, k :: 0 <= i < k < |cols| ==> cols[i] != cols[k] }

  /** The junction names a column for every column of either end, and no end repeats one. */
  ghost predicate Paired(e: Edge)
    requires e.junction.Some?
  {
    && |e.junction.value.local| == |e.local| && |e.junction.value.foreign| == |e.foreign|
    && NoRepeats(e.local) && NoRepeats(e.foreign)
  }

  /** A row holding its own column names, and the parent row that joins it. */
  function OwnNames(cols: seq<string>): Row { map c | c in cols :: Val(c) }

  function JoiningNames(local: seq<string>, cols: seq<string>): Row
    requires |local| == |cols| && forall i, k :: 0 <= i < k < |local| ==> local[i] != local[k]
  {
    map i | 0 <= i < |local| :: local[i] := Val(cols[i])
  }

  /** The rows' own names tell the columns apart. */
  ghost predicate Tells(e: Edge, n: nat, p: Row, t: Row)
    requires n <= |e.local| && n <= |e.foreign|
  {
    && (forall c :: Get(t, c) != Null ==> Get(t, c) == Val(c))
    && (forall i :: 0 <= i < |e.foreign| ==> (Get(t, e.foreign[i]) != Null <==> i < n))
    && (forall i :: 0 <= i < |e.local| ==> Get(p, e.local[i]) == if i < n then Val(e.foreign[i]) else Null)
  }

  lemma NamesTell(e: Edge, n: nat) returns (p: Row, t: Row)
    requires n <= |e.local| && n <= |e.foreign| && NoRepeats(e.local) && NoRepeats(e.foreign)
    ensures Tells(e, n, p, t)
  {
    t, p := OwnNames(e.foreign[..n]), JoiningNames(e.local[..n], e.foreign[..n]);
    forall i | 0 <= i < |e.foreign| ensures Get(t, e.foreign[i]) != Null <==> i < n { PrefixHas(e.foreign, n, i); }
    forall i | 0 <= i < |e.local| ensures Get(p, e.local[i]) == if i < n then Val(e.foreign[i]) else Null {
      JoiningGets(e.local, e.foreign, n, i);
    }
  }

  lemma PrefixHas(cols: seq<string>, n: nat, i: nat)
    requires NoRepeats(cols) && n <= |cols| && i < |cols|
    ensures cols[i] in cols[..n] <==> i < n
  {
    if i < n {
      assert cols[..n][i] == cols[i];
    }
  }

  lemma JoiningGets(local: seq<string>, foreign: seq<string>, n: nat, i: nat)
    requires NoRepeats(local) && n <= |local| && n <= |foreign| && i < |local|
    ensures Get(JoiningNames(local[..n], foreign[..n]), local[i]) == if i < n then Val(foreign[i]) else Null
  {
    PrefixHas(local, n, i);
    var l, f := local[..n], foreign[..n];
    if i < n {
      assert l[i] == local[i] && f[i] == foreign[i];
      assert l[i] in JoiningNames(l, f);
    }
  }

  /** Which a caller sees on the edge: the junction's columns, to either end, are the target's own. */
  lemma JoinsAlikeIffSameColumns(e: Edge)
    requires e.junction.Some? && e.func.None? && Paired(e)
    ensures JoinsAlike(e) <==>
            |e.local| == |e.foreign| && e.junction.value.local == e.foreign && e.junction.value.foreign == e.foreign
  {
    if JoinsAlike(e) {
      var n := if |e.local| < |e.foreign| then |e.local| else |e.foreign|;
      var p, t := NamesTell(e, n);
      assert Correlated(e, p, t);
      assert Linked(e, p, t, t);
      ToldApart(e, n, p, t);
    }
  }

  lemma ToldApart(e: Edge, n: nat, p: Row, t: Row)
    requires e.junction.Some? && Paired(e) && n <= |e.local| && n <= |e.foreign| && (n == |e.local| || n == |e.foreign|)
    requires Tells(e, n, p, t) && Linked(e, p, t, t)
    ensures |e.local| == |e.foreign| && e.junction.value.local == e.foreign && e.junction.value.foreign == e.foreign
  {
    var j := e.junction.value;
    forall i | 0 <= i < |e.foreign| ensures Get(t, e.foreign[i]) != Null && j.foreign[i] == e.foreign[i] {
      assert Get(t, j.foreign[i]) != Null && Get(t, j.foreign[i]) == Get(t, e.foreign[i]);
    }
    forall i | 0 <= i < |e.local| ensures Get(p, e.local[i]) != Null && (i < n ==> j.local[i] == e.foreign[i]) {
      assert Get(t, j.local[i]) != Null && Get(t, j.local[i]) == Get(p, e.local[i]);
    }
    if |e.foreign| > 0 {
      assert Get(t, e.foreign[|e.foreign| - 1]) != Null;
    }
    if |e.local| > 0 {
      assert Get(p, e.local[|e.local| - 1]) != Null;
    }
  }

  // ----- a to-one subquery's LIMIT 1 discards nothing -----

  /** No two rows agree, without NULLs, on all the columns. */
  ghost predicate UniqueOn(rows: seq<Row>, cols: seq<string>) {
    forall i, k :: 0 <= i < k < |rows| ==> Differ(rows[i], rows[k], cols)
  }

  ghost predicate Differ(a: Row, b: Row, cols: seq<string>) {
    exists c :: c in cols && (Get(a, c) == Null || Get(a, c) != Get(b, c))
  }

  /** The declared primary keys, unique constraints and referenced keys hold. */
  ghost predicate Satisfies(db: Db, s: Schema) {
    && (forall r :: r in s && s[r].primaryKey != [] ==> UniqueOn(Rows(db, r), s[r].primaryKey))
    && (forall r, i :: r in s && 0 <= i < |s[r].unique| && s[r].unique[i] != [] ==>
         UniqueOn(Rows(db, r), s[r].unique[i]))
    && (forall r, i :: r in s && 0 <= i < |s[r].foreignKeys| ==>
          UniqueOn(Rows(db, s[r].foreignKeys[i].target), s[r].foreignKeys[i].refColumns))
  }

  lemma {:induction false} SelectAtMostOne(rows: seq<Row>, keep: Row -> bool)
    requires forall i, k :: 0 <= i < k < |rows| ==> !(keep(rows[i]) && keep(rows[k]))
    ensures |Select(rows, keep)| <= 1
  {
    if rows != [] {
      var init := rows[..|rows| - 1];
      SelectAtMostOne(init, keep);
      SelectEmpty(init, keep);
    }
  }

  /** Rows joined to one parent row over columns that include a unique set are at most one. */
  lemma JoinedIsUnique(rows: seq<Row>, key: seq<string>, cols: seq<string>, parent: Row, local: seq<string>, i: nat,
                       k: nat)
    requires UniqueOn(rows, key) && |cols| == |local| && (forall n :: 0 <= n < |key| ==> key[n] in cols)
    requires i < k < |rows|
    ensures !(JoinCond(rows[i], cols, parent, local) && JoinCond(rows[k], cols, parent, local))
  {
    assert Differ(rows[i], rows[k], key);
    var c :| c in key && (Get(rows[i], c) == Null || Get(rows[i], c) != Get(rows[k], c));
    var n :| 0 <= n < |cols| && cols[n] == c;
  }

  /** For a to-one edge derived from a foreign key, the subquery sees at most one row, so LIMIT 1 discards none. */
  lemma LimitOneDiscardsNothing(s: Schema, db: Db, parentRel: string, target: string, e: Edge, parent: Row,
                                filter: Row -> Truth)
    requires parentRel in s && target in s && Satisfies(db, s)
    requires forall r, i :: r in s && 0 <= i < |s[r].foreignKeys| ==>
               |s[r].foreignKeys[i].columns| == |s[r].foreignKeys[i].refColumns|
    requires Derived(s, parentRel, target, e) && e.card == ToOne
    ensures |Select(Source(db, e, parent), t => Correlated(e, parent, t) && filter(t) == True)| <= 1
  {
    var rows := Rows(db, target);
    assert exists key :: UniqueOn(rows, key) && forall n :: 0 <= n < |key| ==> key[n] in e.foreign by {
      ToOneHasKey(s, db, parentRel, target, e);
    }
    var key :| UniqueOn(rows, key) && forall n :: 0 <= n < |key| ==> key[n] in e.foreign;
    var keep := (t: Row) => Correlated(e, parent, t) && filter(t) == True;
    assert |e.foreign| == |e.local| && Source(db, e, parent) == rows;
    forall i, k | 0 <= i < k < |rows| ensures !(keep(rows[i]) && keep(rows[k])) {
      JoinedIsUnique(rows, key, e.foreign, parent, e.local, i, k);
    }
    SelectAtMostOne(rows, keep);
  }

  lemma ToOneHasKey(s: Schema, db: Db, parentRel: string, target: string, e: Edge)
    requires parentRel in s && target in s && Satisfies(db, s)
    requires Derived(s, parentRel, target, e) && e.card == ToOne
    ensures e.target == target && e.func.None?
    ensures exists key :: UniqueOn(Rows(db, target), key) && forall n :: 0 <= n < |key| ==> key[n] in e.foreign
  {
    var o :| Arises(s, parentRel, target, o) && e == EdgeOf(s, parentRel, target, o);
    if o.Out? {
      assert UniqueOn(Rows(db, target), e.foreign);
    } else {
      if SameColumnSet(s[target].primaryKey, e.foreign) {
        assert UniqueOn(Rows(db, target), s[target].primaryKey);
      } else {
        var u :| 0 <= u < |s[target].unique| && SameColumnSet(s[target].unique[u], e.foreign);
        assert UniqueOn(Rows(db, target), s[target].unique[u]);
      }
    }
  }
}
