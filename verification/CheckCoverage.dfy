/**
How far the gate enforces WITH CHECK on an update (authz/authz.go). It checks the columns the update sets and
relies on USING for the rest; this module settles exactly when that is enough.
*/
module CheckCoverage {
  import opened Wrappers
  import opened Ir
  import opened Strings
  import opened Authz

  /** No row satisfies a USING term whose claim is missing. */
  predicate MissesClaim(rc: Context, using: seq<Term>) {
    exists i :: 0 <= i < |using| && Resolve(rc, using[i]).None?
  }

  /** `u` demands one value, and `w` demands another or excludes that one. */
  predicate Clash(rc: Context, u: Term, w: Term) {
    var a, b := Resolve(rc, u), Resolve(rc, w);
    u.column == w.column && u.op == TermEq && a.Some? && b.Some? && (a.value == b.value <==> w.op == TermNeq)
  }

  /** A row that satisfies `u` satisfies `t`. */
  predicate Entails(rc: Context, u: Term, t: Term) {
    var a, b := Resolve(rc, u), Resolve(rc, t);
    && u.column == t.column && a.Some? && b.Some?
    && if a.value == b.value then u.op == t.op else u.op == TermEq && t.op == TermNeq
  }

  /** No row satisfies the USING terms. */
  predicate NoRow(rc: Context, using: seq<Term>) {
    || MissesClaim(rc, using)
    || exists i, j :: 0 <= i < |using| && 0 <= j < |using| && Clash(rc, using[i], using[j])
  }

  /** The USING terms leave no row, or one of them entails `t`. */
  predicate Forced(rc: Context, using: seq<Term>, t: Term) {
    NoRow(rc, using) || exists i :: 0 <= i < |using| && Entails(rc, using[i], t)
  }

  ghost predicate AllHold(rc: Context, using: seq<Term>, row: Row) {
    forall i :: 0 <= i < |using| ==> TermHolds(rc, using[i], row)
  }

  lemma ForcedHolds(rc: Context, using: seq<Term>, t: Term, row: Row)
    requires Forced(rc, using, t) && AllHold(rc, using, row)
    ensures TermHolds(rc, t, row)
  {
    NoRowHolds(rc, using, row);
    forall i | 0 <= i < |using| ensures Entails(rc, using[i], t) ==> TermHolds(rc, t, row) {
      assert TermHolds(rc, using[i], row);
    }
  }

  lemma ClashingTerms(rc: Context, u: Term, w: Term, row: Row)
    requires TermHolds(rc, u, row) && TermHolds(rc, w, row)
    ensures !Clash(rc, u, w)
  {
  }

  // ----- otherwise some row satisfies USING and not the term -----

  predicate Demands(u: Term, column: string) { u.column == column && u.op == TermEq }

  function Demanded(rc: Context, using: seq<Term>, column: string): (v: Option<string>)
    ensures v.Some? ==> exists i :: 0 <= i < |using| && Demands(using[i], column) && Resolve(rc, using[i]) == v
    ensures v.None? ==> forall i :: 0 <= i < |using| && Demands(using[i], column) ==> Resolve(rc, using[i]).None?
  {
    if using == [] then None
    else
      var u := using[|using| - 1];
      if Demands(u, column) && Resolve(rc, u).Some? then Resolve(rc, u)
      else Demanded(rc, using[..|using| - 1], column)
  }

  /** The demanded value; else the one `t` excludes, if it is about this column; else a value no term names. */
  function Pick(rc: Context, using: seq<Term>, t: Term, fresh_: string, column: string): string {
    var d := Demanded(rc, using, column);
    if d.Some? then d.value
    else if column == t.column && t.op == TermNeq && Resolve(rc, t).Some? then Resolve(rc, t).value
    else fresh_
  }

  function Witness(rc: Context, using: seq<Term>, t: Term, fresh_: string): Row {
    map i | 0 <= i < |using| :: using[i].column := Pick(rc, using, t, fresh_, using[i].column)
  }

  ghost predicate Unnamed(rc: Context, using: seq<Term>, t: Term, x: string) {
    Resolve(rc, t) != Some(x) && forall i :: 0 <= i < |using| ==> Resolve(rc, using[i]) != Some(x)
  }

  lemma WitnessSatisfies(rc: Context, using: seq<Term>, t: Term, x: string, i: nat)
    requires !Forced(rc, using, t) && Unnamed(rc, using, t, x) && i < |using|
    ensures TermHolds(rc, using[i], Witness(rc, using, t, x))
  {
    var u := using[i];
    var row := Witness(rc, using, t, x);
    assert u.column in row && row[u.column] == Pick(rc, using, t, x, u.column);
    assert Resolve(rc, u).Some?;
    var d := Demanded(rc, using, u.column);
    if d.Some? {
      var j :| 0 <= j < |using| && Demands(using[j], u.column) && Resolve(rc, using[j]) == d;
      assert !Clash(rc, using[j], u);
    } else {
      assert !Entails(rc, u, t);
    }
  }

  lemma WitnessViolates(rc: Context, using: seq<Term>, t: Term, x: string)
    requires !Forced(rc, using, t) && Unnamed(rc, using, t, x)
    ensures !TermHolds(rc, t, Witness(rc, using, t, x))
  {
    var row := Witness(rc, using, t, x);
    if t.column in row && Resolve(rc, t).Some? {
      assert row[t.column] == Pick(rc, using, t, x, t.column);
      var d := Demanded(rc, using, t.column);
      if d.Some? {
        var j :| 0 <= j < |using| && Demands(using[j], t.column) && Resolve(rc, using[j]) == d;
        assert !Entails(rc, using[j], t);
      }
    }
  }

  lemma SomeUnnamed(rc: Context, using: seq<Term>, t: Term) returns (x: string)
    ensures Unnamed(rc, using, t, x)
  {
    var texts := seq(|using|, i requires 0 <= i < |using| => Or(Resolve(rc, using[i])));
    var all := texts + [Or(Resolve(rc, t))];
    x := FreshText(all);
    assert all[|using|] == Or(Resolve(rc, t));
    assert forall i :: 0 <= i < |using| ==> all[i] == Or(Resolve(rc, using[i]));
  }

  function Or(v: Option<string>): string { if v.Some? then v.value else "" }

  ghost predicate Covers(rc: Context, using: seq<Term>, t: Term) {
    forall row: Row :: AllHold(rc, using, row) ==> TermHolds(rc, t, row)
  }

  /** USING constrains every row to satisfy the term exactly when it visibly forces it. */
  lemma CoversIffForced(rc: Context, using: seq<Term>, t: Term)
    ensures Covers(rc, using, t) <==> Forced(rc, using, t)
  {
    if Forced(rc, using, t) {
      forall row: Row | AllHold(rc, using, row) ensures TermHolds(rc, t, row) { ForcedHolds(rc, using, t, row); }
    } else {
      var x := SomeUnnamed(rc, using, t);
      var row := Witness(rc, using, t, x);
      forall i | 0 <= i < |using| ensures TermHolds(rc, using[i], row) { WitnessSatisfies(rc, using, t, x, i); }
      WitnessViolates(rc, using, t, x);
      assert AllHold(rc, using, row);
    }
  }

  /** Some row satisfies the USING terms exactly when they neither miss a claim nor clash. */
  lemma SatisfiedIff(rc: Context, using: seq<Term>)
    ensures (exists row: Row :: AllHold(rc, using, row)) <==> !NoRow(rc, using)
  {
    var names := seq(|using|, i requires 0 <= i < |using| => using[i].column);
    var fresh_ := FreshText(names);
    assert forall i :: 0 <= i < |using| ==> names[i] == using[i].column;
    var t := Term(fresh_, TermEq, "", "");
    if NoRow(rc, using) {
      forall row: Row ensures !AllHold(rc, using, row) {
        if AllHold(rc, using, row) {
          NoRowHolds(rc, using, row);
        }
      }
    } else {
      var x := SomeUnnamed(rc, using, t);
      var row := Witness(rc, using, t, x);
      forall i | 0 <= i < |using| ensures TermHolds(rc, using[i], row) { WitnessSatisfies(rc, using, t, x, i); }
      assert AllHold(rc, using, row);
    }
  }

  lemma NoRowHolds(rc: Context, using: seq<Term>, row: Row)
    requires AllHold(rc, using, row)
    ensures !NoRow(rc, using)
  {
    forall i, j | 0 <= i < |using| && 0 <= j < |using| ensures !Clash(rc, using[i], using[j]) {
      ClashingTerms(rc, using[i], using[j], row);
    }
    forall i | 0 <= i < |using| ensures Resolve(rc, using[i]).Some? {
      assert TermHolds(rc, using[i], row);
    }
  }

  // ----- the gate -----

  /** The engine's truth of the policy conditions on a row. */
  function Leaf(row: Row): Cond -> Truth {
    (c: Cond) =>
      if !c.Compare? || |c.path| != 1 then Unknown
      else if c.op == Eq then (if c.path[0] in row then FromBool(row[c.path[0]] == c.value.text) else Unknown)
      else if c.op == Neq then (if c.path[0] in row then FromBool(row[c.path[0]] != c.value.text) else Unknown)
      else False
  }

  lemma LeafReads(row: Row)
    ensures Reads(Leaf(row), row)
  {
  }

  /** The USING terms of the policies for the role and relation, in declaration order. */
  function UsingTerms(policies: seq<Policy>, rc: Context, rel: string): seq<Term> {
    var merged := MergedTerms(policies, PolicyKey(rc.role, rel));
    if merged.None? then [] else merged.value.using
  }

  /** Every row a filterless update changes satisfies the term afterwards. */
  ghost predicate AlwaysHoldsAfter(reg: Registry, rc: Context, q: Request, t: Term)
    requires q.write.Some?
  {
    forall row: Row :: Keeps(Decision(reg, rc, q, None).1, Leaf(row)) ==>
        TermHolds(rc, t, Assigned(rc, row, q.write.value.set_))
  }

  lemma KeptIffUsing(grants: seq<Grant>, policies: seq<Policy>, reg: Registry, rc: Context, q: Request, row: Row)
    requires Declares(grants, policies, reg) && q.kind == Update && q.write.Some? && Decision(reg, rc, q, None).0.None?
    ensures Keeps(Decision(reg, rc, q, None).1, Leaf(row)) <==> AllHold(rc, UsingTerms(policies, rc, q.rel), row)
  {
    LeafReads(row);
    FilterIsClientAndPolicies(grants, policies, reg, rc, q, None, Leaf(row), row);
    UsingIsMerged(policies, reg, rc, q.rel, row);
    var k := PolicyKey(rc.role, q.rel);
    assert MergedTerms(policies, k) == if k in reg.policies then Some(reg.policies[k]) else None;
  }

  /**
  An accepted update always leaves rows that satisfy a WITH CHECK term exactly under this condition: if it sets the
  term's column, the value is not NULL; if it does not, the USING terms force the term; or no row is changed at all.
  Otherwise it can leave a row that the policy forbids.
  */
  lemma UpdateEnforcesCheckIff(grants: seq<Grant>, policies: seq<Policy>, reg: Registry, rc: Context, q: Request,
                               p: nat, t: Term)
    requires Declares(grants, policies, reg) && q.kind == Update && q.write.Some? && Decision(reg, rc, q, None).0.None?
    requires p < |policies| && Matches(policies[p], rc, q.rel) && t in policies[p].check
    ensures var set_, using := q.write.value.set_, UsingTerms(policies, rc, q.rel);
            AlwaysHoldsAfter(reg, rc, q, t) <==>
            if t.column in set_ then NonNull(set_[t.column]) || NoRow(rc, using) else Forced(rc, using, t)
  {
    var set_, using := q.write.value.set_, UsingTerms(policies, rc, q.rel);
    CheckIsMerged(policies, reg, rc, q.rel, p, t);
    forall row: Row ensures Keeps(Decision(reg, rc, q, None).1, Leaf(row)) <==> AllHold(rc, using, row) {
      KeptIffUsing(grants, policies, reg, rc, q, row);
    }
    if t.column in set_ {
      SatisfiedIff(rc, using);
      assert TermPasses(rc, t, set_, true);
      forall row: Row ensures TermHolds(rc, t, Assigned(rc, row, set_)) <==> NonNull(set_[t.column]) {
      }
    } else {
      CoversIffForced(rc, using, t);
      forall row: Row ensures TermHolds(rc, t, Assigned(rc, row, set_)) <==> TermHolds(rc, t, row) {
      }
    }
  }
}
