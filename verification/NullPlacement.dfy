/**
NULL placement across engines: PostgreSQL's NULLS FIRST/LAST (backend/postgres/dialect.go), MySQL's IS NULL sort key
(backend/mysql/dialect.go), MongoDB's rank key (backend/mongo/pipeline.go) and the in-memory comparator
(backend/writerep.go). MySQL and MongoDB place NULLs lowest on their own; MongoDB's records may also lack a field.
*/
module NullPlacement {
  import opened Wrappers
  import opened RowOrder
  import W = WriteShape
  import Ir

  datatype Term = Term(column: string, desc: bool, nullsFirst: Option<bool>)

  /** What a row has for a column; a relational row lacks none. */
  datatype Slot = Missing | Held(cell: Cell)
  type Row = string -> Slot

  /** A column's value: NULL where the record lacks the field. */
  function Value(s: Slot): Cell { if s.Missing? then Null else s.cell }

  function First(t: Term): bool { if t.nullsFirst.Some? then t.nullsFirst.value else t.desc }

  // ----- PostgreSQL -----

  datatype Nulls = NullsFirst | NullsLast

  /** The clause the PostgreSQL dialect spells. */
  function PgClause(t: Term): Nulls { if First(t) then NullsFirst else NullsLast }

  /** Non-NULL cells by value in the term's direction; NULLs together at the end the clause names. */
  function PgCompare(t: Term, a: Cell, b: Cell): int {
    match (a, b)
    case (Null, Null) => 0
    case (Null, _) => if PgClause(t) == NullsFirst then -1 else 1
    case (_, Null) => if PgClause(t) == NullsLast then -1 else 1
    case (_, _) => Flip(t.desc, CompareCells(a, b))
  }

  function PgOrder(terms: seq<Term>, a: Row, b: Row): int {
    if terms == [] then 0
    else
      var c := PgOrder(terms[..|terms| - 1], a, b);
      var t := terms[|terms| - 1];
      if c != 0 then c else PgCompare(t, Value(a(t.column)), Value(b(t.column)))
  }

  // ----- engines that sort by a list of keys, NULL and missing lowest -----

  /** MySQL's (col IS NULL), MongoDB's computed rank, which a stored null alone gets, or a column. */
  datatype Key =
    | IsNullKey(column: string, desc: bool)
    | RankKey(column: string, nullRank: int, otherRank: int)
    | ColumnKey(column: string, desc: bool)

  function NativeCompare(a: Cell, b: Cell): int {
    if a.Null? && b.Null? then 0 else if a.Null? then -1 else if b.Null? then 1 else CompareCells(a, b)
  }

  function CompareRank(x: int, y: int): int { if x < y then -1 else if x > y then 1 else 0 }

  /** The expression compares the field with null: a field that is not there is not equal to null. */
  function Rank(k: Key, s: Slot): int
    requires k.RankKey?
  {
    if s == Held(Null) then k.nullRank else k.otherRank
  }

  function KeyCompare(k: Key, a: Row, b: Row): int {
    var x, y := a(k.column), b(k.column);
    match k
    case IsNullKey(_, desc) =>
      Flip(desc, CompareRank(if Value(x).Null? then 1 else 0, if Value(y).Null? then 1 else 0))
    case RankKey(_, _, _) => CompareRank(Rank(k, x), Rank(k, y))
    case ColumnKey(_, desc) => Flip(desc, NativeCompare(Value(x), Value(y)))
  }

  function KeyOrder(keys: seq<Key>, a: Row, b: Row): int {
    if keys == [] then 0
    else
      var c := KeyOrder(keys[..|keys| - 1], a, b);
      if c != 0 then c else KeyCompare(keys[|keys| - 1], a, b)
  }

  /** MySQL: (col IS NULL), descending to put NULLs first, then the column. */
  function MySqlKeys(t: Term): seq<Key> { [IsNullKey(t.column, First(t)), ColumnKey(t.column, t.desc)] }

  /** MongoDB: an ascending rank key only when the placement is explicit, then the field. */
  function MongoKeys(t: Term): seq<Key> {
    (if t.nullsFirst.None? then []
     else if t.nullsFirst.value then [RankKey(t.column, 0, 1)] else [RankKey(t.column, 1, 0)])
    + [ColumnKey(t.column, t.desc)]
  }

  function AllKeys(terms: seq<Term>, keys: Term -> seq<Key>): seq<Key> {
    if terms == [] then [] else AllKeys(terms[..|terms| - 1], keys) + keys(terms[|terms| - 1])
  }

  /** The stages of the source: computed rank fields, and the sort document that uses them by position. */
  datatype SortField = ByRank(index: nat) | ByColumn(column: string, dir: int)
  datatype RankField = RankField(index: nat, column: string, nullRank: int, otherRank: int)

  /** What a sort document means, with the rank fields computed before it. */
  function Meaning(add: seq<RankField>, f: SortField): Option<Key> {
    match f
    case ByColumn(c, dir) => Some(ColumnKey(c, dir == -1))
    case ByRank(i) =>
      if add == [] then None
      else if add[|add| - 1].index == i
      then Some(RankKey(add[|add| - 1].column, add[|add| - 1].nullRank, add[|add| - 1].otherRank))
      else Meaning(add[..|add| - 1], f)
  }

  ghost predicate Means(add: seq<RankField>, sort: seq<SortField>, keys: seq<Key>) {
    |sort| == |keys| && forall i :: 0 <= i < |sort| ==> Meaning(add, sort[i]) == Some(keys[i])
  }

  lemma {:induction false} MeaningGrows(add: seq<RankField>, more: RankField, f: SortField)
    requires f.ByRank? ==> f.index < more.index
    ensures Meaning(add + [more], f) == Meaning(add, f)
  {
    assert (add + [more])[..|add|] == add;
  }

  method OrderStages(order: seq<Term>) returns (add: seq<RankField>, sort: seq<SortField>)
    ensures Means(add, sort, AllKeys(order, MongoKeys))
  {
    add, sort := [], [];
    for i := 0 to |order|
      invariant Means(add, sort, AllKeys(order[..i], MongoKeys))
      invariant forall j :: 0 <= j < |sort| && sort[j].ByRank? ==> sort[j].index < i
    {
      var t := order[i];
      ghost var keys := AllKeys(order[..i], MongoKeys);
      assert order[..i + 1][..i] == order[..i];
      if t.nullsFirst.Some? {
        var nullRank, otherRank := 1, 0;
        if t.nullsFirst.value {
          nullRank, otherRank := 0, 1;
        }
        var rank := RankField(i, t.column, nullRank, otherRank);
        forall j | 0 <= j < |sort| ensures Meaning(add + [rank], sort[j]) == Meaning(add, sort[j]) {
          MeaningGrows(add, rank, sort[j]);
        }
        add := add + [rank];
        sort := sort + [ByRank(i)];
        assert Meaning(add, ByRank(i)) == Some(RankKey(t.column, nullRank, otherRank));
      }
      var dir := if t.desc then -1 else 1;
      sort := sort + [ByColumn(t.column, dir)];
      assert AllKeys(order[..i + 1], MongoKeys) == keys + MongoKeys(t);
    }
    assert order[..|order|] == order;
  }

  // ----- term by term -----

  lemma {:induction false} KeyOrderAppend(a: seq<Key>, b: seq<Key>, x: Row, y: Row)
    ensures KeyOrder(a + b, x, y) == if KeyOrder(a, x, y) != 0 then KeyOrder(a, x, y) else KeyOrder(b, x, y)
  {
    if b == [] {
      assert a + b == a;
    } else {
      var init := b[..|b| - 1];
      assert (a + b)[..|a + b| - 1] == a + init;
      KeyOrderAppend(a, init, x, y);
    }
  }

  lemma TwoKeys(k: Key, l: Key, x: Row, y: Row)
    ensures KeyOrder([k, l], x, y) == if KeyCompare(k, x, y) != 0 then KeyCompare(k, x, y) else KeyCompare(l, x, y)
    ensures KeyOrder([l], x, y) == KeyCompare(l, x, y)
  {
    KeyOrderAppend([k], [l], x, y);
    assert [k] + [l] == [k, l];
    assert KeyOrder([k][..0], x, y) == 0 && KeyOrder([l][..0], x, y) == 0;
  }

  lemma MySqlTerm(t: Term, x: Row, y: Row)
    ensures KeyOrder(MySqlKeys(t), x, y) == PgCompare(t, Value(x(t.column)), Value(y(t.column)))
  {
    TwoKeys(MySqlKeys(t)[0], MySqlKeys(t)[1], x, y);
    assert MySqlKeys(t) == [MySqlKeys(t)[0], MySqlKeys(t)[1]];
  }

  function MongoCompare(t: Term, x: Row, y: Row): int { KeyOrder(MongoKeys(t), x, y) }

  /** One term's keys in turn: the rank, if any, then the field. */
  lemma MongoSteps(t: Term, x: Row, y: Row)
    ensures var l := KeyCompare(ColumnKey(t.column, t.desc), x, y);
            MongoCompare(t, x, y) ==
            if t.nullsFirst.None? then l
            else
              var k := if t.nullsFirst.value then RankKey(t.column, 0, 1) else RankKey(t.column, 1, 0);
              var r := KeyCompare(k, x, y);
              if r != 0 then r else l
  {
    var l := ColumnKey(t.column, t.desc);
    if t.nullsFirst.Some? {
      TwoKeys(MongoKeys(t)[0], l, x, y);
      assert MongoKeys(t) == [MongoKeys(t)[0], l];
    } else {
      TwoKeys(l, l, x, y);
      assert MongoKeys(t) == [l];
    }
  }

  /** A term that states the end where MongoDB puts missing fields anyway. */
  predicate PlacedLow(t: Term) { t.nullsFirst == Some(!t.desc) }

  /** A null and a missing field, which PostgreSQL cannot tell apart. */
  predicate NullAndMissing(a: Slot, b: Slot) { (a == Held(Null) && b.Missing?) || (a.Missing? && b == Held(Null)) }

  /**
  For one term MongoDB agrees with PostgreSQL on a pair exactly in these cases. Without a stated placement both cells
  are NULL or neither is. With one, neither field is missing, or both are, or a missing field meets a value and the
  placement is the one that MongoDB has by itself.
  */
  predicate TermAgrees(t: Term, a: Slot, b: Slot) {
    if t.nullsFirst.None? then Value(a).Null? <==> Value(b).Null?
    else (a.Missing? <==> b.Missing?) || (PlacedLow(t) && !NullAndMissing(a, b))
  }

  lemma MongoTerm(t: Term, x: Row, y: Row)
    ensures var a, b := x(t.column), y(t.column);
            MongoCompare(t, x, y) == PgCompare(t, Value(a), Value(b)) <==> TermAgrees(t, a, b)
  {
    MongoSteps(t, x, y);
  }

  // ----- the other orders agree on every list -----

  /** MySQL's keys order every pair of rows as PostgreSQL does. */
  lemma {:induction false} MySqlAgrees(terms: seq<Term>, x: Row, y: Row)
    ensures KeyOrder(AllKeys(terms, MySqlKeys), x, y) == PgOrder(terms, x, y)
  {
    if terms != [] {
      var init, t := terms[..|terms| - 1], terms[|terms| - 1];
      MySqlAgrees(init, x, y);
      KeyOrderAppend(AllKeys(init, MySqlKeys), MySqlKeys(t), x, y);
      MySqlTerm(t, x, y);
    }
  }

  /** A returned row by column name. */
  function Named(cols: seq<string>, r: W.Row): Row
    requires |r| >= |cols|
  {
    (name: string) =>
      var i := W.ColumnIndex(cols, name);
      if i.None? then Missing else Held(r[i.value])
  }

  /** The plain terms on returned columns, which are the ones the in-memory order uses. */
  function Plain(cols: seq<string>, order: seq<W.OrderTerm>): seq<Term> {
    if order == [] then []
    else
      var t := order[|order| - 1];
      Plain(cols, order[..|order| - 1]) +
      if |t.path| == 1 && t.last == Ir.NoStep && W.ColumnIndex(cols, t.path[0]).Some?
      then [Term(t.path[0], t.desc, t.nullsFirst)] else []
  }

  lemma {:induction false} CompareAppend(ks: seq<W.SortKey>, k: W.SortKey, a: W.Row, b: W.Row)
    requires W.Wide(ks + [k], a) && W.Wide(ks + [k], b)
    ensures W.Wide(ks, a) && W.Wide(ks, b) && k.idx < |a| && k.idx < |b|
    ensures W.Compare(ks + [k], a, b) ==
            if W.Compare(ks, a, b) != 0 then W.Compare(ks, a, b)
            else CompareKeyed(k.desc, k.nullsFirst, a[k.idx], b[k.idx])
  {
    assert (ks + [k])[|ks|] == k && forall i :: 0 <= i < |ks| ==> (ks + [k])[i] == ks[i];
    if ks != [] {
      assert (ks + [k])[1..] == ks[1..] + [k];
      CompareAppend(ks[1..], k, a, b);
    } else {
      assert [k][1..] == [];
    }
  }

  lemma PgNext(terms: seq<Term>, t: Term, x: Row, y: Row)
    ensures PgOrder(terms + [t], x, y) ==
            if PgOrder(terms, x, y) != 0 then PgOrder(terms, x, y)
            else PgCompare(t, Value(x(t.column)), Value(y(t.column)))
  {
    assert (terms + [t])[..|terms|] == terms;
  }

  lemma MemoryTerm(cols: seq<string>, t: W.OrderTerm, a: W.Row, b: W.Row)
    requires |a| >= |cols| && |b| >= |cols| && W.KeyFor(cols, t).Some?
    ensures var k, c := W.KeyFor(cols, t).value, t.path[0];
            CompareKeyed(k.desc, k.nullsFirst, a[k.idx], b[k.idx]) ==
            PgCompare(Term(c, t.desc, t.nullsFirst), Value(Named(cols, a)(c)), Value(Named(cols, b)(c)))
  {
  }

  /** The in-memory comparator orders every pair of returned rows as PostgreSQL does by the plain terms. */
  lemma {:induction false} MemoryAgrees(cols: seq<string>, order: seq<W.OrderTerm>, a: W.Row, b: W.Row)
    requires |a| >= |cols| && |b| >= |cols|
    ensures W.Compare(W.Keys(cols, order), a, b) == PgOrder(Plain(cols, order), Named(cols, a), Named(cols, b))
  {
    if order != [] {
      var init, t := order[..|order| - 1], order[|order| - 1];
      MemoryAgrees(cols, init, a, b);
      var ks, terms := W.Keys(cols, init), Plain(cols, init);
      if W.KeyFor(cols, t).Some? {
        var k, u := W.KeyFor(cols, t).value, Term(t.path[0], t.desc, t.nullsFirst);
        assert W.Keys(cols, order) == ks + [k] && Plain(cols, order) == terms + [u];
        CompareAppend(ks, k, a, b);
        PgNext(terms, u, Named(cols, a), Named(cols, b));
        MemoryTerm(cols, t, a, b);
      } else {
        assert W.Keys(cols, order) == ks && Plain(cols, order) == terms;
      }
    }
  }

  // ----- lists of terms on MongoDB -----

  function MongoOrder(terms: seq<Term>, x: Row, y: Row): int { KeyOrder(AllKeys(terms, MongoKeys), x, y) }

  lemma MongoNext(terms: seq<Term>, x: Row, y: Row)
    requires terms != []
    ensures var c := MongoOrder(terms[..|terms| - 1], x, y);
            MongoOrder(terms, x, y) == if c != 0 then c else MongoCompare(terms[|terms| - 1], x, y)
  {
    KeyOrderAppend(AllKeys(terms[..|terms| - 1], MongoKeys), MongoKeys(terms[|terms| - 1]), x, y);
  }

  /** Which slots the records have: some may lack fields, some may store nulls. */
  predicate Allowed(missing: bool, nulls: bool, s: Slot) { (s.Missing? ==> missing) && (s == Held(Null) ==> nulls) }

  ghost predicate AllAllowed(missing: bool, nulls: bool, x: Row) { forall c :: Allowed(missing, nulls, x(c)) }

  /** A term that agrees on all such slots. */
  predicate Places(missing: bool, nulls: bool, t: Term) {
    if missing && nulls then false
    else if missing then PlacedLow(t)
    else if nulls then t.nullsFirst.Some?
    else true
  }

  /** The first term on each column; later terms on that column cannot matter. */
  predicate FirstPlaces(missing: bool, nulls: bool, terms: seq<Term>) {
    forall i :: 0 <= i < |terms| && Fresh(terms, i) ==> Places(missing, nulls, terms[i])
  }

  predicate Fresh(terms: seq<Term>, i: nat)
    requires i < |terms|
  {
    forall j :: 0 <= j < i ==> terms[j].column != terms[i].column
  }

  ghost predicate MongoAgreesOn(missing: bool, nulls: bool, terms: seq<Term>) {
    forall x: Row, y: Row :: AllAllowed(missing, nulls, x) && AllAllowed(missing, nulls, y) ==>
      MongoOrder(terms, x, y) == PgOrder(terms, x, y)
  }

  lemma PlacesAgrees(missing: bool, nulls: bool, t: Term, a: Slot, b: Slot)
    requires Places(missing, nulls, t) && Allowed(missing, nulls, a) && Allowed(missing, nulls, b)
    ensures TermAgrees(t, a, b)
  {
  }

  /** Rows that tie on a list of terms are both NULL or both not on each of its columns. */
  lemma {:induction false} TieMeansSameNulls(terms: seq<Term>, x: Row, y: Row, j: nat)
    requires PgOrder(terms, x, y) == 0 && j < |terms|
    ensures Value(x(terms[j].column)).Null? <==> Value(y(terms[j].column)).Null?
  {
    if j < |terms| - 1 {
      TieMeansSameNulls(terms[..|terms| - 1], x, y, j);
    }
  }

  lemma {:induction false} AgreesWhenPlaced(missing: bool, nulls: bool, terms: seq<Term>, n: nat, x: Row, y: Row)
    requires FirstPlaces(missing, nulls, terms) && AllAllowed(missing, nulls, x) && AllAllowed(missing, nulls, y)
    requires n <= |terms|
    ensures MongoOrder(terms[..n], x, y) == PgOrder(terms[..n], x, y)
  {
    if n > 0 {
      var m := n - 1;
      assert terms[..n][..m] == terms[..m];
      AgreesWhenPlaced(missing, nulls, terms, m, x, y);
      MongoNext(terms[..n], x, y);
      MongoTerm(terms[m], x, y);
      if PgOrder(terms[..m], x, y) == 0 {
        NextAgrees(missing, nulls, terms, m, x, y);
      }
    }
  }

  lemma NextAgrees(missing: bool, nulls: bool, terms: seq<Term>, m: nat, x: Row, y: Row)
    requires FirstPlaces(missing, nulls, terms) && AllAllowed(missing, nulls, x) && AllAllowed(missing, nulls, y)
    requires m < |terms| && PgOrder(terms[..m], x, y) == 0
    ensures TermAgrees(terms[m], x(terms[m].column), y(terms[m].column))
  {
    var t := terms[m];
    if Fresh(terms, m) {
      PlacesAgrees(missing, nulls, t, x(t.column), y(t.column));
    } else {
      var j :| 0 <= j < m && terms[j].column == t.column;
      TieMeansSameNulls(terms[..m], x, y, j);
      FirstIsThere(missing, nulls, terms, m);
    }
  }

  /** A list with any term states one, so the records are not of both sorts. */
  lemma FirstIsThere(missing: bool, nulls: bool, terms: seq<Term>, n: nat)
    requires FirstPlaces(missing, nulls, terms) && n < |terms|
    ensures !(missing && nulls)
  {
    assert Fresh(terms, 0);
  }

  // ----- and otherwise some pair disagrees -----

  /** A row that differs from the others of its kind on one column only. */
  function Has(column: string, s: Slot): Row { (c: string) => if c == column then s else Held(Bool(true)) }

  /** Two rows that may differ on one column only. */
  ghost predicate DifferAt(column: string, x: Row, y: Row) {
    forall c :: c != column ==> x(c) == Held(Bool(true)) && y(c) == Held(Bool(true))
  }

  /** Terms on other columns see no difference. */
  lemma {:induction false} OthersTie(terms: seq<Term>, column: string, x: Row, y: Row)
    requires DifferAt(column, x, y) && forall i :: 0 <= i < |terms| ==> terms[i].column != column
    ensures PgOrder(terms, x, y) == 0 && MongoOrder(terms, x, y) == 0
  {
    if terms != [] {
      OthersTie(terms[..|terms| - 1], column, x, y);
      MongoNext(terms, x, y);
      MongoTerm(terms[|terms| - 1], x, y);
    }
  }

  /** Once a prefix of the terms has decided on MongoDB, the rest change nothing there. */
  lemma {:induction false} MongoDecided(terms: seq<Term>, n: nat, x: Row, y: Row)
    requires n <= |terms| && MongoOrder(terms[..n], x, y) != 0
    ensures MongoOrder(terms, x, y) == MongoOrder(terms[..n], x, y)
    decreases |terms|
  {
    if n == |terms| {
      assert terms[..n] == terms;
    } else {
      assert terms[..|terms| - 1][..n] == terms[..n];
      MongoDecided(terms[..|terms| - 1], n, x, y);
      MongoNext(terms, x, y);
    }
  }

  lemma {:induction false} PgDecided(terms: seq<Term>, n: nat, x: Row, y: Row)
    requires n <= |terms| && PgOrder(terms[..n], x, y) != 0
    ensures PgOrder(terms, x, y) == PgOrder(terms[..n], x, y)
    decreases |terms|
  {
    if n == |terms| {
      assert terms[..n] == terms;
    } else {
      assert terms[..|terms| - 1][..n] == terms[..n];
      PgDecided(terms[..|terms| - 1], n, x, y);
    }
  }

  /** PostgreSQL cannot tell a null from a missing field. */
  lemma {:induction false} PgSeesNoMissing(terms: seq<Term>, column: string)
    ensures PgOrder(terms, Has(column, Missing), Has(column, Held(Null))) == 0
  {
    if terms != [] {
      PgSeesNoMissing(terms[..|terms| - 1], column);
    }
  }

  /** The first term on the one column where two rows differ decides, if it tells them apart. */
  lemma FirstDecides(terms: seq<Term>, i: nat, x: Row, y: Row)
    requires i < |terms| && Fresh(terms, i) && DifferAt(terms[i].column, x, y)
    ensures var t := terms[i];
            var p := PgCompare(t, Value(x(t.column)), Value(y(t.column)));
            && (MongoCompare(t, x, y) != 0 ==> MongoOrder(terms, x, y) == MongoCompare(t, x, y))
            && (p != 0 ==> PgOrder(terms, x, y) == p)
  {
    OthersTie(terms[..i], terms[i].column, x, y);
    if MongoCompare(terms[i], x, y) != 0 {
      MongoPrefix(terms, i, x, y);
      MongoDecided(terms, i + 1, x, y);
    }
    if PgCompare(terms[i], Value(x(terms[i].column)), Value(y(terms[i].column))) != 0 {
      PgPrefix(terms, i, x, y);
      PgDecided(terms, i + 1, x, y);
    }
  }

  lemma MongoPrefix(terms: seq<Term>, i: nat, x: Row, y: Row)
    requires i < |terms| && MongoOrder(terms[..i], x, y) == 0
    ensures MongoOrder(terms[..i + 1], x, y) == MongoCompare(terms[i], x, y)
  {
    assert terms[..i + 1][..i] == terms[..i];
    MongoNext(terms[..i + 1], x, y);
  }

  lemma PgPrefix(terms: seq<Term>, i: nat, x: Row, y: Row)
    requires i < |terms| && PgOrder(terms[..i], x, y) == 0
    ensures PgOrder(terms[..i + 1], x, y) == PgCompare(terms[i], Value(x(terms[i].column)), Value(y(terms[i].column)))
  {
    PgNext(terms[..i], terms[i], x, y);
    assert terms[..i] + [terms[i]] == terms[..i + 1];
  }

  /** A slot that a term which does not place it tells apart wrongly from `Opposite`. */
  function Misplaced(missing: bool): Slot { if missing then Missing else Held(Null) }

  function Opposite(missing: bool, nulls: bool, t: Term): Slot {
    if missing && nulls && t.nullsFirst.Some? then Held(Null) else Held(Bool(true))
  }

  lemma MisplacedDisagrees(missing: bool, nulls: bool, t: Term, x: Row, y: Row)
    requires !Places(missing, nulls, t)
    requires x(t.column) == Misplaced(missing) && y(t.column) == Opposite(missing, nulls, t)
    ensures Allowed(missing, nulls, x(t.column)) && Allowed(missing, nulls, y(t.column))
    ensures MongoCompare(t, x, y) != 0
    ensures var p := PgCompare(t, Value(x(t.column)), Value(y(t.column)));
            p != MongoCompare(t, x, y) && (p == 0 ==> x(t.column) == Missing && y(t.column) == Held(Null))
  {
    MongoSteps(t, x, y);
  }

  lemma Disagrees(missing: bool, nulls: bool, terms: seq<Term>, i: nat) returns (x: Row, y: Row)
    requires i < |terms| && Fresh(terms, i) && !Places(missing, nulls, terms[i])
    ensures AllAllowed(missing, nulls, x) && AllAllowed(missing, nulls, y)
    ensures MongoOrder(terms, x, y) != PgOrder(terms, x, y)
  {
    var t := terms[i];
    x, y := Has(t.column, Misplaced(missing)), Has(t.column, Opposite(missing, nulls, t));
    MisplacedDisagrees(missing, nulls, t, x, y);
    FirstDecides(terms, i, x, y);
    if PgCompare(t, Value(x(t.column)), Value(y(t.column))) == 0 {
      PgSeesNoMissing(terms, t.column);
    }
  }

  /**
  MongoDB sorts all records as PostgreSQL does exactly when the first term on each column places what the records have:
  any term if every field holds a value; a stated placement if some hold null; the placement MongoDB has by itself, but
  stated, if some fields are missing; and no term at all if there are both nulls and missing fields.
  */
  lemma MongoAgreesIffFirstPlaces(missing: bool, nulls: bool, terms: seq<Term>)
    ensures MongoAgreesOn(missing, nulls, terms) <==> FirstPlaces(missing, nulls, terms)
  {
    if FirstPlaces(missing, nulls, terms) {
      forall x: Row, y: Row | AllAllowed(missing, nulls, x) && AllAllowed(missing, nulls, y)
        ensures MongoOrder(terms, x, y) == PgOrder(terms, x, y)
      {
        AgreesWhenPlaced(missing, nulls, terms, |terms|, x, y);
        assert terms[..|terms|] == terms;
      }
    } else {
      var i :| 0 <= i < |terms| && Fresh(terms, i) && !Places(missing, nulls, terms[i]);
      var x, y := Disagrees(missing, nulls, terms, i);
    }
  }

  /** For one: order=a.asc.nullslast puts a record without `a` before one that has it, PostgreSQL after it. */
  lemma MissingFieldSortsFirst()
    ensures var terms, x, y := [Term("a", false, Some(false))], Has("a", Missing), Has("a", Held(Num(1.0, "1")));
            MongoOrder(terms, x, y) == -1 && PgOrder(terms, x, y) == 1
  {
    var terms, x, y := [Term("a", false, Some(false))], Has("a", Missing), Has("a", Held(Num(1.0, "1")));
    MongoSteps(terms[0], x, y);
    FirstDecides(terms, 0, x, y);
  }
}
