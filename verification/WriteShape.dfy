/** Ordering and paging the rows a write returns (backend/writerep.go). */
module WriteShape {
  import opened Wrappers
  import opened RowOrder
  import opened Ir

  type Row = seq<Cell>

  datatype OrderTerm = OrderTerm(path: seq<string>, last: JsonStep, desc: bool, nullsFirst: Option<bool>)

  datatype SortKey = SortKey(idx: nat, desc: bool, nullsFirst: bool)

  /** The position of a returned column; the last one of that name, as the source's index keeps it. */
  function ColumnIndex(cols: seq<string>, name: string): (i: Option<nat>)
    ensures i.Some? ==> i.value < |cols| && cols[i.value] == name && name !in cols[i.value + 1..]
    ensures i.None? ==> name !in cols
  {
    if cols == [] then None
    else if cols[|cols| - 1] == name then Some(|cols| - 1)
    else ColumnIndex(cols[..|cols| - 1], name)
  }

  function KeyFor(cols: seq<string>, t: OrderTerm): (k: Option<SortKey>)
    ensures k.Some? ==> k.value.idx < |cols|
  {
    if |t.path| != 1 || t.last != NoStep || ColumnIndex(cols, t.path[0]).None? then None
    else
      var nullsFirst := if t.nullsFirst.Some? then t.nullsFirst.value else t.desc;
      Some(SortKey(ColumnIndex(cols, t.path[0]).value, t.desc, nullsFirst))
  }

  /** The keys of the terms that name a returned column, in order. */
  function Keys(cols: seq<string>, terms: seq<OrderTerm>): (ks: seq<SortKey>)
    ensures forall i :: 0 <= i < |ks| ==> ks[i].idx < |cols|
  {
    if terms == [] then []
    else
      var k := KeyFor(cols, terms[|terms| - 1]);
      Keys(cols, terms[..|terms| - 1]) + if k.Some? then [k.value] else []
  }

  predicate Wide(ks: seq<SortKey>, r: Row) { forall i :: 0 <= i < |ks| ==> ks[i].idx < |r| }

  /** The comparator: the first key that tells two rows apart decides. */
  function Compare(ks: seq<SortKey>, a: Row, b: Row): int
    requires Wide(ks, a) && Wide(ks, b)
  {
    if ks == [] then 0
    else
      var k := ks[0];
      var c := CompareKeyed(k.desc, k.nullsFirst, a[k.idx], b[k.idx]);
      if c != 0 then c else Compare(ks[1..], a, b)
  }

  ghost predicate Uniform(ks: seq<SortKey>, a: Row, b: Row)
    requires Wide(ks, a) && Wide(ks, b)
  {
    forall i :: 0 <= i < |ks| ==> Mixable(a[ks[i].idx], b[ks[i].idx])
  }

  /** When no sort column mixes numbers with text or NaN, the comparator is a strict weak order. */
  lemma {:induction false} CompareLawful(ks: seq<SortKey>, a: Row, b: Row, c: Row)
    requires Wide(ks, a) && Wide(ks, b) && Wide(ks, c)
    requires Uniform(ks, a, b) && Uniform(ks, b, c) && Uniform(ks, a, c)
    ensures Lawful(Compare(ks, a, a), Compare(ks, a, b), Compare(ks, b, a), Compare(ks, b, c), Compare(ks, a, c))
  {
    if ks != [] {
      var k := ks[0];
      CompareKeyedLawful(k.desc, k.nullsFirst, a[k.idx], b[k.idx], c[k.idx]);
      CompareLawful(ks[1..], a, b, c);
    }
  }

  // ----- stable sorting -----

  /** The rows can be sorted: each is wide enough and no sort column mixes numbers with text or NaN. */
  ghost predicate Sortable(ks: seq<SortKey>, rows: seq<Row>) {
    && (forall i :: 0 <= i < |rows| ==> Wide(ks, rows[i]))
    && (forall i, j :: 0 <= i < |rows| && 0 <= j < |rows| ==> Uniform(ks, rows[i], rows[j]))
  }

  /** Row `i` goes before row `j`: it is smaller, or equal and earlier. */
  ghost predicate Before(ks: seq<SortKey>, rows: seq<Row>, i: nat, j: nat)
    requires i < |rows| && j < |rows| && Wide(ks, rows[i]) && Wide(ks, rows[j])
  {
    var c := Compare(ks, rows[i], rows[j]);
    c < 0 || (c == 0 && i < j)
  }

  /** `p` lists distinct positions of `rows`, in stable sorted order. */
  ghost predicate Ascending(ks: seq<SortKey>, rows: seq<Row>, p: seq<nat>)
    requires Sortable(ks, rows)
  {
    && (forall i :: 0 <= i < |p| ==> p[i] < |rows|)
    && (forall i, j :: 0 <= i < j < |p| ==> Before(ks, rows, p[i], p[j]))
  }

  /** The stable sorted permutation of the rows. */
  ghost predicate StableOrder(ks: seq<SortKey>, rows: seq<Row>, p: seq<nat>)
    requires Sortable(ks, rows)
  {
    Ascending(ks, rows, p) && forall i :: 0 <= i < |rows| ==> i in p
  }

  lemma BeforeIsStrict(ks: seq<SortKey>, rows: seq<Row>, i: nat, j: nat, k: nat)
    requires Sortable(ks, rows) && i < |rows| && j < |rows| && k < |rows|
    ensures !(Before(ks, rows, i, j) && Before(ks, rows, j, i))
    ensures i != j ==> Before(ks, rows, i, j) || Before(ks, rows, j, i)
    ensures Before(ks, rows, i, j) && Before(ks, rows, j, k) ==> Before(ks, rows, i, k)
  {
    CompareLawful(ks, rows[i], rows[j], rows[k]);
  }

  lemma FreshAt(ks: seq<SortKey>, rows: seq<Row>, p: seq<nat>, k: nat)
    requires Sortable(ks, rows) && Ascending(ks, rows, p) && k < |p|
    ensures p[k] !in p[..k]
  {
    forall m | 0 <= m < k ensures p[m] != p[k] { BeforeIsStrict(ks, rows, p[m], p[k], p[k]); }
  }

  /** Of the rows not yet placed, the next one comes first. */
  lemma NextIsLeast(ks: seq<SortKey>, rows: seq<Row>, p: seq<nat>, k: nat, j: nat)
    requires Sortable(ks, rows) && StableOrder(ks, rows, p) && k <= |p| && j < |rows| && j !in p[..k]
    ensures k < |p| && (j == p[k] || Before(ks, rows, p[k], j))
  {
    assert j in p;
    var m :| 0 <= m < |p| && p[m] == j;
    assert forall x :: 0 <= x < k ==> p[x] != j by {
      assert forall x :: 0 <= x < k ==> p[x] == p[..k][x];
    }
  }

  /** There is only one stable sorted permutation, so any stable sort returns the same rows. */
  lemma {:induction false} StableOrderUnique(ks: seq<SortKey>, rows: seq<Row>, p: seq<nat>, q: seq<nat>, n: nat)
    requires Sortable(ks, rows) && StableOrder(ks, rows, p) && StableOrder(ks, rows, q) && n <= |p|
    ensures n <= |q| && p[..n] == q[..n]
    decreases n
  {
    if n > 0 {
      var k := n - 1;
      StableOrderUnique(ks, rows, p, q, k);
      FreshAt(ks, rows, p, k);
      NextIsLeast(ks, rows, q, k, p[k]);
      FreshAt(ks, rows, q, k);
      NextIsLeast(ks, rows, p, k, q[k]);
      BeforeIsStrict(ks, rows, p[k], q[k], q[k]);
      assert p[..n] == p[..k] + [p[k]] && q[..n] == q[..k] + [q[k]];
    }
  }

  function Permuted(rows: seq<Row>, p: seq<nat>): (r: seq<Row>)
    requires forall i :: 0 <= i < |p| ==> p[i] < |rows|
    ensures |r| == |p|
  {
    seq(|p|, i requires 0 <= i < |p| => rows[p[i]])
  }

  /** Where a row goes: behind the last row that is not greater. */
  method Slot(ks: seq<SortKey>, sorted: seq<Row>, row: Row) returns (at: nat)
    requires Wide(ks, row) && forall i :: 0 <= i < |sorted| ==> Wide(ks, sorted[i])
    ensures at <= |sorted| && (at > 0 ==> Compare(ks, sorted[at - 1], row) <= 0)
    ensures forall i :: at <= i < |sorted| ==> Compare(ks, sorted[i], row) > 0
  {
    at := |sorted|;
    while at > 0 && Compare(ks, sorted[at - 1], row) > 0
      invariant at <= |sorted|
      invariant forall i :: at <= i < |sorted| ==> Compare(ks, sorted[i], row) > 0
    {
      at := at - 1;
    }
  }

  ghost predicate Distinct(p: seq<nat>) { forall i, j :: 0 <= i < j < |p| ==> p[i] != p[j] }

  ghost predicate Covers(p: seq<nat>, n: nat) { forall i :: 0 <= i < n ==> i in p }

  ghost predicate Permutation(p: seq<nat>, n: nat) {
    |p| == n && (forall i :: 0 <= i < n ==> p[i] < n) && Distinct(p) && Covers(p, n)
  }

  /** `out` is the first `n` rows in the order `p` names, the stable one if there is one. */
  ghost predicate SortedSoFar(ks: seq<SortKey>, rows: seq<Row>, p: seq<nat>, out: seq<Row>, n: nat) {
    && n <= |rows| && |out| == n && Permutation(p, n)
    && (forall i :: 0 <= i < n ==> out[i] == rows[p[i]])
    && (Sortable(ks, rows) ==> Ascending(ks, rows, p))
  }

  lemma InsertedSoFar(ks: seq<SortKey>, rows: seq<Row>, p: seq<nat>, out: seq<Row>, n: nat, at: nat)
    requires SortedSoFar(ks, rows, p, out, n) && n < |rows| && at <= n && AllWide(ks, rows)
    requires at > 0 ==> Compare(ks, out[at - 1], rows[n]) <= 0
    requires forall i :: at <= i < n ==> Compare(ks, out[i], rows[n]) > 0
    ensures SortedSoFar(ks, rows, p[..at] + [n] + p[at..], out[..at] + [rows[n]] + out[at..], n + 1)
  {
    InsertPermutes(p, n, at);
    InsertedRows(rows, p, out, n, at);
    if Sortable(ks, rows) {
      InsertKeepsOrder(ks, rows, p, n, at);
    }
  }

  lemma InsertedRows(rows: seq<Row>, p: seq<nat>, out: seq<Row>, n: nat, at: nat)
    requires n < |rows| && at <= n && |p| == n && |out| == n
    requires forall i :: 0 <= i < n ==> p[i] < n && out[i] == rows[p[i]]
    ensures var q, more := p[..at] + [n] + p[at..], out[..at] + [rows[n]] + out[at..];
            |q| == n + 1 && |more| == n + 1 && forall i :: 0 <= i < n + 1 ==> q[i] <= n && more[i] == rows[q[i]]
  {
  }

  lemma InsertDistinct(p: seq<nat>, n: nat, at: nat)
    requires Distinct(p) && at <= |p| && forall i :: 0 <= i < |p| ==> p[i] < n
    ensures Distinct(p[..at] + [n] + p[at..])
  {
    var q := p[..at] + [n] + p[at..];
    forall i, j | 0 <= i < j < |q| ensures q[i] != q[j] {
      assert q[i] == if i < at then p[i] else if i == at then n else p[i - 1];
      assert q[j] == if j < at then p[j] else if j == at then n else p[j - 1];
    }
  }

  lemma InsertPermutes(p: seq<nat>, n: nat, at: nat)
    requires Permutation(p, n) && at <= n
    ensures Permutation(p[..at] + [n] + p[at..], n + 1)
  {
    InsertCovers(p, n, at);
    InsertDistinct(p, n, at);
  }

  /** A rearrangement of the rows, and the one stable order of them where the comparator is lawful. */
  ghost predicate Arranged(ks: seq<SortKey>, rows: seq<Row>, out: seq<Row>) {
    exists p :: Permutation(p, |rows|) && out == Permuted(rows, p) && (Sortable(ks, rows) ==> StableOrder(ks, rows, p))
  }

  ghost predicate AllWide(ks: seq<SortKey>, rows: seq<Row>) { forall i :: 0 <= i < |rows| ==> Wide(ks, rows[i]) }

  lemma ArrangedAtLast(ks: seq<SortKey>, rows: seq<Row>, p: seq<nat>, out: seq<Row>)
    requires SortedSoFar(ks, rows, p, out, |rows|)
    ensures Arranged(ks, rows, out)
  {
    assert out == Permuted(rows, p);
  }

  lemma WideSoFar(ks: seq<SortKey>, rows: seq<Row>, p: seq<nat>, out: seq<Row>, n: nat)
    requires SortedSoFar(ks, rows, p, out, n) && AllWide(ks, rows)
    ensures AllWide(ks, out)
  {
  }

  /** A stable sort: each row goes behind the rows that are not greater. */
  method StableSort(ks: seq<SortKey>, rows: seq<Row>) returns (out: seq<Row>)
    requires AllWide(ks, rows)
    ensures Arranged(ks, rows, out)
  {
    out := [];
    ghost var p: seq<nat> := [];
    for n := 0 to |rows|
      invariant SortedSoFar(ks, rows, p, out, n)
    {
      WideSoFar(ks, rows, p, out, n);
      var at := Slot(ks, out, rows[n]);
      InsertedSoFar(ks, rows, p, out, n, at);
      out := out[..at] + [rows[n]] + out[at..];
      p := p[..at] + [n] + p[at..];
    }
    ArrangedAtLast(ks, rows, p, out);
  }

  lemma InsertKeepsOrder(ks: seq<SortKey>, rows: seq<Row>, p: seq<nat>, n: nat, at: nat)
    requires Sortable(ks, rows) && Ascending(ks, rows, p) && n < |rows| && at <= |p| == n
    requires forall i :: 0 <= i < n ==> p[i] < n
    requires at > 0 ==> Compare(ks, rows[p[at - 1]], rows[n]) <= 0
    requires forall i :: at <= i < n ==> Compare(ks, rows[p[i]], rows[n]) > 0
    ensures Ascending(ks, rows, p[..at] + [n] + p[at..])
  {
    forall i | 0 <= i < at ensures Before(ks, rows, p[i], n) {
      if i < at - 1 {
        BeforeIsStrict(ks, rows, p[i], p[at - 1], n);
      }
    }
    forall i | at <= i < n ensures Before(ks, rows, n, p[i]) {
      BeforeIsStrict(ks, rows, n, p[i], n);
    }
    InsertAscending(ks, rows, p, n, at);
  }

  lemma InsertAscending(ks: seq<SortKey>, rows: seq<Row>, p: seq<nat>, n: nat, at: nat)
    requires Sortable(ks, rows) && Ascending(ks, rows, p) && n < |rows| && at <= |p|
    requires forall i :: 0 <= i < at ==> Before(ks, rows, p[i], n)
    requires forall i :: at <= i < |p| ==> Before(ks, rows, n, p[i])
    ensures Ascending(ks, rows, p[..at] + [n] + p[at..])
  {
    var q := p[..at] + [n] + p[at..];
    assert forall i :: 0 <= i < |q| ==> q[i] == if i < at then p[i] else if i == at then n else p[i - 1];
    assert forall i :: 0 <= i < |q| ==> q[i] < |rows|;
    forall i, j | 0 <= i < j < |q| ensures Before(ks, rows, q[i], q[j]) {
      if i == at {
        assert Before(ks, rows, n, p[j - 1]);
      } else if j == at {
        assert Before(ks, rows, p[i], n);
      } else {
        assert Before(ks, rows, p[if i < at then i else i - 1], p[if j < at then j else j - 1]);
      }
    }
  }

  lemma InsertCovers(p: seq<nat>, n: nat, at: nat)
    requires at <= |p| && Covers(p, n)
    ensures Covers(p[..at] + [n] + p[at..], n + 1)
  {
    var q := p[..at] + [n] + p[at..];
    assert q[at] == n;
    forall i | 0 <= i < n ensures i in q {
      assert i in p;
      var m :| 0 <= m < |p| && p[m] == i;
      assert q[if m < at then m else m + 1] == i;
    }
  }

  // ----- paging -----

  function Max0(n: int): nat { if n < 0 then 0 else n }

  function Min(a: nat, b: nat): nat { if a < b then a else b }

  /** Offset, then limit; an absent bound leaves its end open. */
  function Page<T>(rows: seq<T>, limit: Option<int>, offset: Option<int>): seq<T> {
    var skipped :=
      if offset.None? then rows else if Max0(offset.value) >= |rows| then [] else rows[Max0(offset.value)..];
    if limit.Some? && Max0(limit.value) < |skipped| then skipped[..Max0(limit.value)] else skipped
  }

  lemma PageIsWindow<T>(rows: seq<T>, limit: Option<int>, offset: Option<int>)
    ensures var n := |rows|;
            var from := Min(if offset.Some? then Max0(offset.value) else 0, n);
            var to := if limit.Some? then Min(from + Max0(limit.value), n) else n;
            Page(rows, limit, offset) == rows[from..to]
  {
  }

  method BuildKeys(cols: seq<string>, terms: seq<OrderTerm>) returns (ks: seq<SortKey>)
    ensures ks == Keys(cols, terms)
  {
    var index: map<string, nat> := map[];
    for i := 0 to |cols|
      invariant forall c :: ColumnIndex(cols[..i], c) == if c in index then Some(index[c]) else None
    {
      assert cols[..i + 1][..i] == cols[..i];
      index := index[cols[i] := i];
    }
    assert cols[..|cols|] == cols;
    ks := [];
    for i := 0 to |terms|
      invariant ks == Keys(cols, terms[..i])
    {
      assert terms[..i + 1][..i] == terms[..i];
      var t := terms[i];
      if |t.path| == 1 && t.last == NoStep && t.path[0] in index {
        var nullsFirst := t.desc;
        if t.nullsFirst.Some? {
          nullsFirst := t.nullsFirst.value;
        }
        ks := ks + [SortKey(index[t.path[0]], t.desc, nullsFirst)];
      }
    }
    assert terms[..|terms|] == terms;
  }

  /** The returned rows are a window of the arranged rows; rows must be as wide as the column list. */
  method ShapeWriteRepresentation(cols: seq<string>, rows: seq<Row>, order: seq<OrderTerm>,
                                  limit: Option<int>, offset: Option<int>)
    returns (out: seq<Row>)
    requires forall i :: 0 <= i < |rows| ==> |rows[i]| >= |cols|
    ensures exists sorted :: Arranged(Keys(cols, order), rows, sorted) && out == Page(sorted, limit, offset)
  {
    var ks := BuildKeys(cols, order);
    assert AllWide(ks, rows);
    var sorted := StableSort(ks, rows);
    out := Page(sorted, limit, offset);
  }

  /** Where the comparator is lawful there is one such list, so the answer is determined. */
  lemma SortedOneWay(ks: seq<SortKey>, rows: seq<Row>, a: seq<Row>, b: seq<Row>)
    requires Sortable(ks, rows) && Arranged(ks, rows, a) && Arranged(ks, rows, b)
    ensures a == b
  {
    var p :| Permutation(p, |rows|) && a == Permuted(rows, p) && StableOrder(ks, rows, p);
    var q :| Permutation(q, |rows|) && b == Permuted(rows, q) && StableOrder(ks, rows, q);
    StableOrderUnique(ks, rows, p, q, |p|);
    assert p == p[..|p|] && q == q[..|p|];
  }

  ghost predicate Tied(ks: seq<SortKey>, m: nat, a: Row, b: Row)
    requires Wide(ks, a) && Wide(ks, b) && m <= |ks|
  {
    forall l :: 0 <= l < m ==> CompareKeyed(ks[l].desc, ks[l].nullsFirst, a[ks[l].idx], b[ks[l].idx]) == 0
  }

  /** Rows that tie on the first keys are told apart by the next one, if at all. */
  lemma {:induction false} TiesDefer(ks: seq<SortKey>, m: nat, a: Row, b: Row)
    requires Wide(ks, a) && Wide(ks, b) && m < |ks| && Tied(ks, m, a, b)
    ensures var c := CompareKeyed(ks[m].desc, ks[m].nullsFirst, a[ks[m].idx], b[ks[m].idx]);
            c != 0 ==> Compare(ks, a, b) == c
  {
    if m > 0 {
      TiesDefer(ks[1..], m - 1, a, b);
    }
  }

  /** Among rows that tie on the terms before it, a term puts NULLs at the end it asks for, whatever its direction. */
  lemma NullsStandWhereAsked(ks: seq<SortKey>, rows: seq<Row>, sorted: seq<Row>, m: nat, i: nat, j: nat)
    requires Sortable(ks, rows) && Arranged(ks, rows, sorted) && m < |ks| && i < j < |sorted|
    requires Wide(ks, sorted[i]) && Wide(ks, sorted[j]) && Tied(ks, m, sorted[i], sorted[j])
    ensures var x, y := sorted[i][ks[m].idx], sorted[j][ks[m].idx];
            if ks[m].nullsFirst then y.Null? ==> x.Null? else x.Null? ==> y.Null?
  {
    var p :| Permutation(p, |rows|) && sorted == Permuted(rows, p) && StableOrder(ks, rows, p);
    assert Before(ks, rows, p[i], p[j]);
    TiesDefer(ks, m, sorted[i], sorted[j]);
  }

  /** Among rows that tie on the terms before it, a term orders values of one kind, in reverse if descending. */
  lemma ValuesStandInOrder(ks: seq<SortKey>, rows: seq<Row>, sorted: seq<Row>, m: nat, i: nat, j: nat)
    requires Sortable(ks, rows) && Arranged(ks, rows, sorted) && m < |ks| && i < j < |sorted|
    requires Wide(ks, sorted[i]) && Wide(ks, sorted[j]) && Tied(ks, m, sorted[i], sorted[j])
    requires SameKind(sorted[i][ks[m].idx], sorted[j][ks[m].idx])
    ensures var x, y := sorted[i][ks[m].idx], sorted[j][ks[m].idx];
            if ks[m].desc then !Smaller(x, y) else !Smaller(y, x)
  {
    var p :| Permutation(p, |rows|) && sorted == Permuted(rows, p) && StableOrder(ks, rows, p);
    assert Before(ks, rows, p[i], p[j]);
    TiesDefer(ks, m, sorted[i], sorted[j]);
    ComparesValues(sorted[i][ks[m].idx], sorted[j][ks[m].idx]);
  }
}
