/**
What an answer draws on, beside what the privilege gate looks at (authz/authz.go): the gate reads the plain select
items of the request's own relation, while an answer also shows aggregates, embedded relations, and whole rows where
the select list cannot be reshaped (ir/ir.go, backend/sqlgen/embed.go, backend/sqlite/sqlite.go).
*/
module AnswerScope {
  import opened Wrappers
  import opened Ir
  import opened Strings
  import opened Authz
  import CC = CheckCoverage

  /** Something of a relation: its rows at all, one column, or all of them. */
  datatype Part = Some_ | One(column: string) | Whole
  datatype Drawn = Drawn(rel: string, part: Part)

  ghost predicate DrawGranted(grants: seq<Grant>, rc: Context, d: Drawn) {
    var k := GrantKey(rc.role, d.rel, SelectRows);
    match d.part
    case Some_ => Granted(grants, k, None)
    case One(c) => Granted(grants, k, Some(c))
    case Whole => WhollyGranted(grants, k)
  }

  /** Whatever is declared, an accepted request has these granted. */
  ghost predicate AlwaysGranted(rc: Context, q: Request, where: Option<Cond>, draws: Drawn -> bool) {
    forall grants, policies, reg ::
      Declares(grants, policies, reg) && Decision(reg, rc, q, where).0.None? ==>
        forall d :: draws(d) ==> DrawGranted(grants, rc, d)
  }

  // ----- what the gate asks for -----

  predicate AsksWhole(select: seq<SelectItem>) {
    select == [] || exists i :: 0 <= i < |select| && select[i].Column? && IsStar(select[i])
  }

  predicate Named(select: seq<SelectItem>, c: string) {
    exists i :: 0 <= i < |select| && select[i].Column? && BaseColumn(select[i]) == c
  }

  /** The gate asks for a grant that covers this. */
  predicate Covered(q: Request, d: Drawn) {
    Projects(q) && d.rel == q.rel &&
        (AsksWhole(q.select) || d.part.Some_? || (d.part.One? && Named(q.select, d.part.column)))
  }

  predicate Complete(q: Request) { q.kind != Read && q.kind != Delete ==> q.write.Some? }

  lemma CoveredIsGranted(grants: seq<Grant>, policies: seq<Policy>, reg: Registry, rc: Context, q: Request,
                         where: Option<Cond>, d: Drawn)
    requires Complete(q) && Declares(grants, policies, reg) && Decision(reg, rc, q, where).0.None? && Covered(q, d)
    ensures DrawGranted(grants, rc, d)
  {
    AcceptedIff(grants, policies, reg, rc, q, where);
    var k := GrantKey(rc.role, q.rel, SelectRows);
    MergedGrantsMean(grants, reg, k);
  }

  // ----- a registry that grants no more -----

  /** Every list of declarations has its registry. */
  lemma RegistryFor(grants: seq<Grant>, policies: seq<Policy>) returns (reg: Registry)
    ensures Declares(grants, policies, reg)
  {
    var g := GrantsFor(grants);
    var keys := set i | 0 <= i < |policies| :: PolicyKey(policies[i].role, policies[i].rel);
    forall k: PolicyKey ensures MergedTerms(policies, k).Some? <==> k in keys {
      MergedTermsAre(policies, k, Term("", TermEq, "", ""));
    }
    reg := Registry(g, map k | k in keys :: MergedTerms(policies, k).value);
  }

  lemma {:induction false} GrantsFor(grants: seq<Grant>) returns (m: map<GrantKey, ColSet>)
    ensures MergesGrants(grants, m)
  {
    if grants == [] {
      m := map[];
    } else {
      var init, g := grants[..|grants| - 1], grants[|grants| - 1];
      m := GrantsFor(init);
      var had := if KeyOf(g) in m then m[KeyOf(g)] else ColSet(false, {});
      var cur := ColSet(had.all || g.columns == [], had.cols + ColumnsOf(g));
      MergeOne(init, g, m, cur);
      assert init + [g] == grants;
      m := m[KeyOf(g) := cur];
    }
  }

  function WholeGrant(rc: Context, q: Request, a: Action): Grant { Grant(rc.role, q.rel, a, []) }

  /** Full privileges to write, and to read the rows only these columns, or all if there are none. */
  function Least(rc: Context, q: Request, columns: seq<string>): seq<Grant> {
    [WholeGrant(rc, q, InsertRows), WholeGrant(rc, q, UpdateRows), WholeGrant(rc, q, DeleteRows),
     Grant(rc.role, q.rel, SelectRows, columns)]
  }

  lemma LeastWrites(rc: Context, q: Request, columns: seq<string>, a: Action, c: Option<string>)
    requires a != SelectRows
    ensures Granted(Least(rc, q, columns), GrantKey(rc.role, q.rel, a), c)
  {
    var grants := Least(rc, q, columns);
    var i := if a == InsertRows then 0 else if a == UpdateRows then 1 else 2;
    assert KeyOf(grants[i]) == GrantKey(rc.role, q.rel, a) && grants[i].columns == [];
  }

  lemma LeastReads(rc: Context, q: Request, columns: seq<string>, rel: string, c: Option<string>)
    ensures var k := GrantKey(rc.role, rel, SelectRows);
            && (Granted(Least(rc, q, columns), k, c) <==>
                  rel == q.rel && (c.None? || columns == [] || c.value in columns))
            && (WhollyGranted(Least(rc, q, columns), k) <==> rel == q.rel && columns == [])
  {
    var grants, k := Least(rc, q, columns), GrantKey(rc.role, rel, SelectRows);
    assert grants[3] == Grant(rc.role, q.rel, SelectRows, columns);
    assert forall i :: 0 <= i < |grants| && KeyOf(grants[i]) == k ==> i == 3;
    assert c.Some? ==> (c.value in ColumnsOf(grants[3]) <==> c.value in columns);
    assert KeyOf(grants[3]) == k <==> rel == q.rel;
  }

  function Bases(select: seq<SelectItem>): seq<string> {
    if select == [] then []
    else
      var it := select[|select| - 1];
      Bases(select[..|select| - 1]) + if it.Column? then [BaseColumn(it)] else []
  }

  lemma {:induction false} BasesAreNamed(select: seq<SelectItem>, c: string)
    ensures c in Bases(select) <==> Named(select, c)
  {
    if select != [] {
      var n := |select| - 1;
      BasesAreNamed(select[..n], c);
      assert forall i :: 0 <= i < n ==> select[..n][i] == select[i];
    }
  }

  /** The least grants let the request through. */
  lemma LeastAccepts(rc: Context, q: Request, where: Option<Cond>, columns: seq<string>) returns (reg: Registry)
    requires Complete(q)
    requires columns != [] ==> !AsksWhole(q.select) && forall c :: Named(q.select, c) ==> c in columns
    ensures Declares(Least(rc, q, columns), [], reg) && Decision(reg, rc, q, where).0.None?
  {
    var grants := Least(rc, q, columns);
    reg := RegistryFor(grants, []);
    forall a ensures Granted(grants, GrantKey(rc.role, q.rel, a), None) {
      if a == SelectRows {
        LeastReads(rc, q, columns, q.rel, None);
      } else {
        LeastWrites(rc, q, columns, a, None);
      }
    }
    forall i | 0 <= i < |q.select| && q.select[i].Column? && columns != []
      ensures ItemGranted(grants, GrantKey(rc.role, q.rel, SelectRows), q.select[i])
    {
      assert Named(q.select, BaseColumn(q.select[i]));
      LeastReads(rc, q, columns, q.rel, Some(BaseColumn(q.select[i])));
    }
    LeastReads(rc, q, columns, q.rel, None);
    forall a, c | a != SelectRows ensures Granted(grants, GrantKey(rc.role, q.rel, a), Some(c)) {
      LeastWrites(rc, q, columns, a, Some(c));
    }
    assert Privileged(grants, rc, q) && Checked([], rc, q);
    AcceptedIff(grants, [], reg, rc, q, where);
  }

  /** Without its SELECT grant, a write that returns no rows is let through as well. */
  lemma WritesAccept(rc: Context, q: Request, where: Option<Cond>) returns (reg: Registry)
    requires Complete(q) && !Projects(q)
    ensures Declares(Least(rc, q, [])[..3], [], reg) && Decision(reg, rc, q, where).0.None?
  {
    var grants := Least(rc, q, [])[..3];
    reg := RegistryFor(grants, []);
    forall a, c | a != SelectRows ensures Granted(grants, GrantKey(rc.role, q.rel, a), c) {
      var i := if a == InsertRows then 0 else if a == UpdateRows then 1 else 2;
      assert KeyOf(grants[i]) == GrantKey(rc.role, q.rel, a) && grants[i].columns == [];
    }
    assert Privileged(grants, rc, q) && Checked([], rc, q);
    AcceptedIff(grants, [], reg, rc, q, where);
  }

  /** What the gate does not cover, some registry does not grant and lets pass. */
  lemma UncoveredEscapes(rc: Context, q: Request, where: Option<Cond>, d: Drawn)
    returns (grants: seq<Grant>, reg: Registry)
    requires Complete(q) && !Covered(q, d)
    ensures Declares(grants, [], reg) && Decision(reg, rc, q, where).0.None? && !DrawGranted(grants, rc, d)
  {
    if !Projects(q) {
      grants := Least(rc, q, [])[..3];
      reg := WritesAccept(rc, q, where);
    } else if d.rel != q.rel {
      grants := Least(rc, q, []);
      reg := LeastAccepts(rc, q, where, []);
      LeastReads(rc, q, [], d.rel, if d.part.One? then Some(d.part.column) else None);
    } else {
      var other := FreshText(if d.part.One? then [d.part.column] else []);
      var columns := Bases(q.select) + [other];
      forall c ensures c in columns <==> c == other || Named(q.select, c) { BasesAreNamed(q.select, c); }
      if d.part.One? {
        assert [d.part.column][0] == d.part.column;
      }
      grants := Least(rc, q, columns);
      reg := LeastAccepts(rc, q, where, columns);
      LeastReads(rc, q, columns, d.rel, if d.part.One? then Some(d.part.column) else None);
    }
  }

  /** Whatever is declared, acceptance means that all of these are granted, exactly when the gate covers each. */
  lemma AlwaysGrantedIffCovered(rc: Context, q: Request, where: Option<Cond>, draws: Drawn -> bool)
    requires Complete(q)
    ensures AlwaysGranted(rc, q, where, draws) <==> forall d :: draws(d) ==> Covered(q, d)
  {
    if forall d :: draws(d) ==> Covered(q, d) {
      forall grants, policies, reg | Declares(grants, policies, reg) && Decision(reg, rc, q, where).0.None?
        ensures forall d :: draws(d) ==> DrawGranted(grants, rc, d)
      {
        forall d | draws(d) ensures DrawGranted(grants, rc, d) {
          CoveredIsGranted(grants, policies, reg, rc, q, where, d);
        }
      }
    } else {
      var d :| draws(d) && !Covered(q, d);
      var grants, reg := UncoveredEscapes(rc, q, where, d);
    }
  }

  // ----- what an answer shows -----

  function ArgBase(path: seq<string>): string { if path == [] then "" else path[0] }

  predicate Aggregates(select: seq<SelectItem>, c: string) {
    exists i :: 0 <= i < |select| && select[i].Aggregate? && select[i].arg.Some? && ArgBase(select[i].arg.value) == c
  }

  /** A select item that shows the rows of an embed. */
  predicate ShowsEmbed(select: seq<SelectItem>, embeds: seq<Embed>, i: nat)
    requires i < |select|
  {
    select[i].EmbedRef? && select[i].index < |embeds| && !embeds[select[i].index].hidden
  }

  /** A list of hidden embeds only projects nothing, and the compiler falls back to all columns. */
  predicate FallsBack(select: seq<SelectItem>, embeds: seq<Embed>) {
    embeds != [] && forall i :: 0 <= i < |select| ==> select[i].EmbedRef? && !ShowsEmbed(select, embeds, i)
  }

  /**
  One level of a read. Aggregates show a column at the top only: inside an embed all but the row count are dropped.
  */
  predicate LevelShows(rel: string, select: seq<SelectItem>, embeds: seq<Embed>, top: bool, d: Drawn)
    decreases embeds
  {
    || d == Drawn(rel, Some_)
    || (d == Drawn(rel, Whole) && (AsksWhole(select) || (top && FallsBack(select, embeds))))
    || (d.rel == rel && d.part.One? && (Named(select, d.part.column) || (top && Aggregates(select, d.part.column))))
    || exists i :: 0 <= i < |select| && ShowsEmbed(select, embeds, i) && EmbedShows(embeds[select[i].index], d)
  }

  predicate EmbedShows(e: Embed, d: Drawn)
    decreases e
  {
    LevelShows(e.rel, e.select, e.embeds, false, d)
  }

  /** The compiler refuses an aggregate beside an embed. */
  predicate Refused(q: Request) {
    q.embeds != [] && exists i :: 0 <= i < |q.select| && q.select[i].Aggregate?
  }

  /** A write reads back the listed columns if they are plain, and all columns if not. */
  predicate Listed(q: Request) {
    && q.select != [] && q.embeds == []
    && forall i :: 0 <= i < |q.select| ==>
         && q.select[i].Column? && |q.select[i].path| == 1 && q.select[i].last == NoStep
         && q.select[i].cast == "" && q.select[i].alias == "" && !IsStar(q.select[i])
  }

  predicate Shows(q: Request, d: Drawn) {
    if q.kind == Read then !Refused(q) && LevelShows(q.rel, q.select, q.embeds, true, d)
    else
      && Projects(q) && d.rel == q.rel
      && if Listed(q) then d.part.Some_? || (d.part.One? && Named(q.select, d.part.column)) else d.part.Whole?
  }

  /**
  The condition as a caller sees it. A read shows no embed, every column it aggregates is also selected plainly, and
  its select list is not of hidden embeds only; a write that returns rows lists plain columns. Or, embeds aside, all
  columns are asked for.
  */
  ghost predicate Plain(q: Request) {
    if q.kind == Read then
      || Refused(q)
      || (&& (forall i :: 0 <= i < |q.select| ==> !ShowsEmbed(q.select, q.embeds, i))
          && (AsksWhole(q.select) ||
              (!FallsBack(q.select, q.embeds) && forall c :: Aggregates(q.select, c) ==> Named(q.select, c))))
    else Projects(q) ==> Listed(q) || AsksWhole(q.select)
  }

  /** No embed shown at the top is of the request's own relation. */
  predicate EmbedsOthers(q: Request) {
    forall i :: 0 <= i < |q.select| && ShowsEmbed(q.select, q.embeds, i) ==> q.embeds[q.select[i].index].rel != q.rel
  }

  lemma ShownCoveredIffPlain(q: Request)
    requires EmbedsOthers(q)
    ensures (forall d :: Shows(q, d) ==> Covered(q, d)) <==> Plain(q)
  {
    if Plain(q) {
      forall d | Shows(q, d) ensures Covered(q, d) {
      }
    } else if q.kind != Read {
      assert Shows(q, Drawn(q.rel, Whole)) && !Covered(q, Drawn(q.rel, Whole));
    } else if i :| 0 <= i < |q.select| && ShowsEmbed(q.select, q.embeds, i) {
      var e := q.embeds[q.select[i].index];
      assert EmbedShows(e, Drawn(e.rel, Some_));
      assert Shows(q, Drawn(e.rel, Some_)) && !Covered(q, Drawn(e.rel, Some_));
    } else if FallsBack(q.select, q.embeds) {
      assert Shows(q, Drawn(q.rel, Whole)) && !Covered(q, Drawn(q.rel, Whole));
    } else {
      var c :| Aggregates(q.select, c) && !Named(q.select, c);
      assert Shows(q, Drawn(q.rel, One(c))) && !Covered(q, Drawn(q.rel, One(c)));
    }
  }

  /** Whatever is declared, an accepted request shows only what is granted exactly when it is plain. */
  lemma ShownIsGrantedIffPlain(rc: Context, q: Request, where: Option<Cond>)
    requires Complete(q) && EmbedsOthers(q)
    ensures AlwaysGranted(rc, q, where, (d: Drawn) => Shows(q, d)) <==> Plain(q)
  {
    AlwaysGrantedIffCovered(rc, q, where, (d: Drawn) => Shows(q, d));
    ShownCoveredIffPlain(q);
  }

  /** For one: emp?select=salary.max() is let through under a grant of another column, and shows the highest salary. */
  lemma AggregateIsNotGated(rc: Context)
    ensures var q := Request(Read, "emp", [Aggregate(Some(["salary"]))], [], [], None);
            !AlwaysGranted(rc, q, None, (d: Drawn) => Shows(q, d))
  {
    var q := Request(Read, "emp", [Aggregate(Some(["salary"]))], [], [], None);
    assert q.select[0].arg == Some(["salary"]);
    assert Aggregates(q.select, "salary") && !Named(q.select, "salary");
    ShownIsGrantedIffPlain(rc, q, None);
  }

  /** For another: emp?select=id,dept(*) is let through without any grant on dept. */
  lemma EmbedIsNotGated(rc: Context)
    ensures var star := Column(["*"], NoStep, "", "");
            var q := Request(Read, "emp", [Column(["id"], NoStep, "", ""), EmbedRef(0)], [],
                             [Embed("dept", [star], None, [], false, [])], None);
            !AlwaysGranted(rc, q, None, (d: Drawn) => Shows(q, d))
  {
    var star := Column(["*"], NoStep, "", "");
    var q := Request(Read, "emp", [Column(["id"], NoStep, "", ""), EmbedRef(0)], [],
                     [Embed("dept", [star], None, [], false, [])], None);
    assert q.select[1] == EmbedRef(0) && ShowsEmbed(q.select, q.embeds, 1) && q.embeds[0].rel == "dept";
    assert q.select[0].Column? && !Refused(q);
    ShownIsGrantedIffPlain(rc, q, None);
  }

  /** And a third: an update of emp that returns select=x:id, an alias, reads back every column. */
  lemma AliasReadsBackAll(rc: Context, w: Write)
    requires w.returnsRows
    ensures var q := Request(Update, "emp", [Column(["id"], NoStep, "", "x")], [], [], Some(w));
            !AlwaysGranted(rc, q, None, (d: Drawn) => Shows(q, d))
  {
    var q := Request(Update, "emp", [Column(["id"], NoStep, "", "x")], [], [], Some(w));
    assert q.select[0].alias == "x" && q.select[0].path[0] == "id";
    ShownIsGrantedIffPlain(rc, q, None);
  }

  // ----- what an answer depends on -----

  predicate Mentions(c: Cond, column: string) {
    match c
    case And(kids) => exists i :: 0 <= i < |kids| && Mentions(kids[i], column)
    case Or(kids) => exists i :: 0 <= i < |kids| && Mentions(kids[i], column)
    case Not(kid) => Mentions(kid, column)
    case EmbedPredicate(_, _) => false
    case Compare(path, _, _, _, _, _, _, _) => ArgBase(path) == column
  }

  predicate Steers(where: Option<Cond>, order: seq<string>, column: string) {
    (where.Some? && Mentions(where.value, column)) || column in order
  }

  /** The columns a read filters and orders by, at any level, and the relations it joins. */
  predicate Consults(q: Request, where: Option<Cond>, d: Drawn) {
    || (d.rel == q.rel && d.part.One? && Steers(where, q.order, d.part.column))
    || exists i :: 0 <= i < |q.embeds| && EmbedConsults(q.embeds[i], d)
  }

  predicate EmbedConsults(e: Embed, d: Drawn) {
    || d == Drawn(e.rel, Some_)
    || (d.rel == e.rel && d.part.One? && Steers(e.where, e.order, d.part.column))
    || exists i :: 0 <= i < |e.embeds| && EmbedConsults(e.embeds[i], d)
  }

  /**
  Without embeds, what a read filters and orders by is granted exactly when it is selected too, or all columns are.
  */
  lemma ConsultedIsGrantedIff(rc: Context, q: Request, where: Option<Cond>)
    requires q.kind == Read && q.embeds == []
    ensures AlwaysGranted(rc, q, where, (d: Drawn) => Consults(q, where, d)) <==>
            AsksWhole(q.select) || forall c :: Steers(where, q.order, c) ==> Named(q.select, c)
  {
    AlwaysGrantedIffCovered(rc, q, where, (d: Drawn) => Consults(q, where, d));
    forall c | Steers(where, q.order, c) ensures Consults(q, where, Drawn(q.rel, One(c))) {
    }
    if c :| !AsksWhole(q.select) && Steers(where, q.order, c) && !Named(q.select, c) {
      assert !Covered(q, Drawn(q.rel, One(c)));
    }
  }

  // ----- which rows the policies reach -----

  /** Every row that a filter keeps satisfies the USING terms of its relation. */
  ghost predicate RowsGuarded(policies: seq<Policy>, rc: Context, rel: string, where: Option<Cond>) {
    forall leaf: Cond -> Truth, row: Row :: Reads(leaf, row) && Keeps(where, leaf) ==>
        PoliciesHold(policies, rc, rel, row)
  }

  /** Some row passes the filter. */
  ghost predicate Keepable(where: Option<Cond>) {
    exists leaf: Cond -> Truth, row: Row :: Reads(leaf, row) && Keeps(where, leaf)
  }

  /** So does every row embedded by a filter of its own, and every one embedded in that. */
  ghost predicate EmbedsGuarded(policies: seq<Policy>, rc: Context, embeds: seq<Embed>) {
    forall i :: 0 <= i < |embeds| ==>
      && RowsGuarded(policies, rc, embeds[i].rel, embeds[i].where)
      && (Keepable(embeds[i].where) ==> EmbedsGuarded(policies, rc, embeds[i].embeds))
  }

  ghost predicate AlwaysGuarded(rc: Context, q: Request, where: Option<Cond>) {
    forall grants, policies, reg ::
      Declares(grants, policies, reg) && Decision(reg, rc, q, where).0.None? ==>
        RowsGuarded(policies, rc, q.rel, Decision(reg, rc, q, where).1) && EmbedsGuarded(policies, rc, q.embeds)
  }

  /** A policy that a given row does not satisfy. */
  function Against(rc: Context, rel: string, row: Row): Policy {
    var literal := if "c" in row then row["c"] + "x" else "";
    Policy(rc.role, rel, [Term("c", TermEq, "", literal)], [])
  }

  lemma AgainstFails(rc: Context, rel: string, row: Row)
    ensures !PoliciesHold([Against(rc, rel, row)], rc, rel, row)
  {
    var policies := [Against(rc, rel, row)];
    var t := policies[0].using[0];
    assert t in policies[0].using && Matches(policies[0], rc, rel);
    if "c" in row {
      assert |row["c"] + "x"| != |row["c"]|;
    }
    assert !TermHolds(rc, t, row);
  }

  /** A policy that checks nothing does not stop a request. */
  lemma AgainstAccepts(rc: Context, q: Request, where: Option<Cond>, rel: string, row: Row) returns (reg: Registry)
    requires Complete(q)
    ensures Declares(Least(rc, q, []), [Against(rc, rel, row)], reg) && Decision(reg, rc, q, where).0.None?
  {
    var grants, policies := Least(rc, q, []), [Against(rc, rel, row)];
    reg := RegistryFor(grants, policies);
    var bare := LeastAccepts(rc, q, where, []);
    AcceptedIff(grants, [], bare, rc, q, where);
    AcceptedIff(grants, policies, reg, rc, q, where);
  }

  /**
  A read's own rows always satisfy USING. Its embedded rows do, whatever is declared, exactly when its embeds can embed
  none: no policy is injected into an embed.
  */
  lemma GuardedIffNothingEmbedded(rc: Context, q: Request, where: Option<Cond>)
    requires q.kind == Read
    ensures AlwaysGuarded(rc, q, where) <==> forall i :: 0 <= i < |q.embeds| ==> !Keepable(q.embeds[i].where)
  {
    if i :| 0 <= i < |q.embeds| && Keepable(q.embeds[i].where) {
      var e := q.embeds[i];
      var leaf: Cond -> Truth, row: Row :| Reads(leaf, row) && Keeps(e.where, leaf);
      var reg := AgainstAccepts(rc, q, where, e.rel, row);
      AgainstFails(rc, e.rel, row);
      assert !RowsGuarded([Against(rc, e.rel, row)], rc, e.rel, e.where);
    } else {
      forall grants, policies, reg | Declares(grants, policies, reg) && Decision(reg, rc, q, where).0.None?
        ensures RowsGuarded(policies, rc, q.rel, Decision(reg, rc, q, where).1) && EmbedsGuarded(policies, rc, q.embeds)
      {
        forall leaf: Cond -> Truth, row: Row | Reads(leaf, row) && Keeps(Decision(reg, rc, q, where).1, leaf)
          ensures PoliciesHold(policies, rc, q.rel, row)
        {
          FilterIsClientAndPolicies(grants, policies, reg, rc, q, where, leaf, row);
        }
      }
    }
  }

  // ----- which rows a write may change -----

  /**
  The stored rows a write changes. A merging upsert changes the rows it conflicts with: its statement has no filter.
  */
  ghost predicate Changes(kind: Kind, merges: bool, where: Option<Cond>, leaf: Cond -> Truth) {
    match kind
    case Read => false
    case Insert => false
    case Upsert => merges
    case Update => Keeps(where, leaf)
    case Delete => Keeps(where, leaf)
  }

  ghost predicate ChangesGuarded(rc: Context, q: Request, merges: bool, where: Option<Cond>) {
    forall grants, policies, reg, leaf: Cond -> Truth, row: Row ::
      Declares(grants, policies, reg) && Decision(reg, rc, q, where).0.None? && Reads(leaf, row) &&
      Changes(q.kind, merges, Decision(reg, rc, q, where).1, leaf) ==>
        PoliciesHold(policies, rc, q.rel, row)
  }

  /**
  Whatever is declared, every stored row an accepted write changes satisfies USING, except under a merging upsert.
  */
  lemma ChangedRowsGuardedIff(rc: Context, q: Request, merges: bool, where: Option<Cond>)
    requires Complete(q)
    ensures ChangesGuarded(rc, q, merges, where) <==> !(q.kind == Upsert && merges)
  {
    if q.kind == Upsert && merges {
      var row: Row := map[];
      var reg := AgainstAccepts(rc, q, where, q.rel, row);
      AgainstFails(rc, q.rel, row);
      CC.LeafReads(row);
      assert Changes(q.kind, merges, Decision(reg, rc, q, where).1, CC.Leaf(row));
    } else {
      forall grants, policies, reg, leaf: Cond -> Truth, row: Row
        | Declares(grants, policies, reg) && Decision(reg, rc, q, where).0.None? && Reads(leaf, row) &&
          Changes(q.kind, merges, Decision(reg, rc, q, where).1, leaf)
        ensures PoliciesHold(policies, rc, q.rel, row)
      {
        FilterIsClientAndPolicies(grants, policies, reg, rc, q, where, leaf, row);
      }
    }
  }
}
