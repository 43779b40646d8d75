/**
The privilege gate and the emulated row security (authz/authz.go): grants decide what a role may do,
policies constrain the rows it reads and writes.
*/
module Authz {
  import opened Wrappers
  import opened Ir
  import J = Json

  datatype Action = SelectRows | InsertRows | UpdateRows | DeleteRows

  datatype Grant = Grant(role: string, rel: string, action: Action, columns: seq<string>)

  datatype TermOp = TermEq | TermNeq

  /** A column compared with a claim, or with a literal (as it prints) when no claim is named. */
  datatype Term = Term(column: string, op: TermOp, claim: string, literal: string)

  datatype Policy = Policy(role: string, rel: string, using: seq<Term>, check: seq<Term>)

  datatype ColSet = ColSet(all: bool, cols: set<string>)
  datatype GrantKey = GrantKey(role: string, rel: string, action: Action)
  datatype PolicyKey = PolicyKey(role: string, rel: string)
  datatype Terms = Terms(using: seq<Term>, check: seq<Term>)

  datatype Registry = Registry(grants: map<GrantKey, ColSet>, policies: map<PolicyKey, Terms>)

  // ----- merging declarations -----

  function KeyOf(g: Grant): GrantKey { GrantKey(g.role, g.rel, g.action) }

  function ColumnsOf(g: Grant): set<string> { set i | 0 <= i < |g.columns| :: g.columns[i] }

  ghost predicate MergesGrants(grants: seq<Grant>, m: map<GrantKey, ColSet>) {
    forall k ::
      && (k in m <==> exists i :: 0 <= i < |grants| && KeyOf(grants[i]) == k)
      && (k in m ==> (m[k].all <==> exists i :: 0 <= i < |grants| && KeyOf(grants[i]) == k && grants[i].columns == []))
      && (k in m ==> forall c :: c in m[k].cols <==>
           exists i :: 0 <= i < |grants| && KeyOf(grants[i]) == k && c in ColumnsOf(grants[i]))
  }

  /** The terms of the policies for one role and relation, in declaration order. */
  function MergedTerms(policies: seq<Policy>, k: PolicyKey): Option<Terms> {
    if policies == [] then None
    else
      var before := MergedTerms(policies[..|policies| - 1], k);
      var p := policies[|policies| - 1];
      if PolicyKey(p.role, p.rel) != k then before
      else if before.None? then Some(Terms(p.using, p.check))
      else Some(Terms(before.value.using + p.using, before.value.check + p.check))
  }

  ghost predicate MergesPolicies(policies: seq<Policy>, m: map<PolicyKey, Terms>) {
    forall k :: MergedTerms(policies, k) == if k in m then Some(m[k]) else None
  }

  method MergeGrants(grants: seq<Grant>) returns (m: map<GrantKey, ColSet>)
    ensures MergesGrants(grants, m)
  {
    m := map[];
    for i := 0 to |grants|
      invariant MergesGrants(grants[..i], m)
    {
      var g := grants[i];
      var k := KeyOf(g);
      var cur := if k in m then m[k] else ColSet(false, {});
      if |g.columns| == 0 {
        cur := cur.(all := true);
      }
      for j := 0 to |g.columns|
        invariant cur.all == ((k in m && m[k].all) || g.columns == [])
        invariant cur.cols == (if k in m then m[k].cols else {}) + set n | 0 <= n < j :: g.columns[n]
      {
        cur := cur.(cols := cur.cols + {g.columns[j]});
      }
      assert grants[..i + 1] == grants[..i] + [g];
      MergeOne(grants[..i], g, m, cur);
      m := m[k := cur];
    }
    assert grants[..|grants|] == grants;
  }

  lemma MergeOne(grants: seq<Grant>, g: Grant, m: map<GrantKey, ColSet>, cur: ColSet)
    requires MergesGrants(grants, m)
    requires cur.all == ((KeyOf(g) in m && m[KeyOf(g)].all) || g.columns == [])
    requires cur.cols == (if KeyOf(g) in m then m[KeyOf(g)].cols else {}) + ColumnsOf(g)
    ensures MergesGrants(grants + [g], m[KeyOf(g) := cur])
  {
    var more, m' := grants + [g], m[KeyOf(g) := cur];
    assert more[|grants|] == g && forall i :: 0 <= i < |grants| ==> more[i] == grants[i];
    forall k
      ensures k in m' <==> exists i :: 0 <= i < |more| && KeyOf(more[i]) == k
      ensures k in m' ==> (m'[k].all <==> exists i :: 0 <= i < |more| && KeyOf(more[i]) == k && more[i].columns == [])
      ensures k in m' ==> forall c :: c in m'[k].cols <==>
                exists i :: 0 <= i < |more| && KeyOf(more[i]) == k && c in ColumnsOf(more[i])
    {
      assert k in m <==> exists i :: 0 <= i < |grants| && KeyOf(grants[i]) == k;
    }
  }

  method MergePolicies(policies: seq<Policy>) returns (m: map<PolicyKey, Terms>)
    ensures MergesPolicies(policies, m)
  {
    m := map[];
    for i := 0 to |policies|
      invariant MergesPolicies(policies[..i], m)
    {
      var p := policies[i];
      var k := PolicyKey(p.role, p.rel);
      assert policies[..i + 1][..i] == policies[..i];
      assert MergedTerms(policies[..i], k) == if k in m then Some(m[k]) else None;
      m := m[k := if k in m then Terms(m[k].using + p.using, m[k].check + p.check) else Terms(p.using, p.check)];
    }
    assert policies[..|policies|] == policies;
  }

  method NewRegistry(grants: seq<Grant>, policies: seq<Policy>) returns (r: Registry)
    ensures MergesGrants(grants, r.grants) && MergesPolicies(policies, r.policies)
  {
    var g := MergeGrants(grants);
    var p := MergePolicies(policies);
    return Registry(g, p);
  }

  /** Merging keeps exactly the terms of the matching policies. */
  lemma {:induction false} MergedTermsAre(policies: seq<Policy>, k: PolicyKey, t: Term)
    ensures MergedTerms(policies, k).Some? <==>
              exists i :: 0 <= i < |policies| && PolicyKey(policies[i].role, policies[i].rel) == k
    ensures MergedTerms(policies, k).Some? ==>
              && (t in MergedTerms(policies, k).value.using <==>
                    exists i :: 0 <= i < |policies| && PolicyKey(policies[i].role, policies[i].rel) == k &&
                        t in policies[i].using)
              && (t in MergedTerms(policies, k).value.check <==>
                    exists i :: 0 <= i < |policies| && PolicyKey(policies[i].role, policies[i].rel) == k &&
                        t in policies[i].check)
  {
    if policies != [] {
      var init := policies[..|policies| - 1];
      MergedTermsAre(init, k, t);
      assert forall i :: 0 <= i < |init| ==> init[i] == policies[i];
    }
  }

  // ----- requests -----

  datatype Kind = Read | Insert | Update | Upsert | Delete

  /** A plain column, an aggregate of a column or of all rows, or a reference to an embed. */
  datatype SelectItem =
    | Column(path: seq<string>, last: JsonStep, cast: string, alias: string)
    | Aggregate(arg: Option<seq<string>>)
    | EmbedRef(index: nat)

  /** An embed; `hidden` marks empty parentheses, which join without showing anything. */
  datatype Embed = Embed(rel: string, select: seq<SelectItem>, where: Option<Cond>, order: seq<string>, hidden: bool,
                         embeds: seq<Embed>)

  datatype Write = Write(
    rows: seq<map<string, Value>>, set_: map<string, Value>, columns: seq<string>, returnsRows: bool)

  /** A planned query, its filter aside. */
  datatype Request = Request(
    kind: Kind, rel: string, select: seq<SelectItem>, order: seq<string>, embeds: seq<Embed>, write: Option<Write>)

  /** Who asks. `show` prints a claim that is neither text, boolean nor null. */
  datatype Context = Context(role: string, anonymous: bool, claims: J.Claims, show: J.Json -> string)

  datatype Error = PermissionDenied(rel: string, anonymous: bool) | RlsViolation(rel: string)

  // ----- the right-hand side of a term -----

  /** The text before the first dot, and the rest when there is one. */
  function CutDot(s: string): (string, Option<string>) {
    if s == [] then ([], None)
    else if s[0] == '.' then ([], Some(s[1..]))
    else
      var (head, rest) := CutDot(s[1..]);
      ([s[0]] + head, rest)
  }

  lemma {:induction false} CutDotShrinks(s: string)
    ensures CutDot(s).1.Some? ==> |CutDot(s).1.value| < |s|
  {
    if s != [] && s[0] != '.' {
      CutDotShrinks(s[1..]);
    }
  }

  function LookupClaim(v: J.Json, path: string): Option<J.Json>
    decreases |path|
  {
    var (head, rest) := CutDot(path);
    CutDotShrinks(path);
    if !v.Obj? || head !in v.fields then None
    else if rest.None? then Some(v.fields[head])
    else LookupClaim(v.fields[head], rest.value)
  }

  /** The value that member names lead to, one object at a time. */
  function Member(v: J.Json, names: seq<string>): Option<J.Json> {
    if names == [] then Some(v)
    else if !v.Obj? || names[0] !in v.fields then None
    else Member(v.fields[names[0]], names[1..])
  }

  function Dots(names: seq<string>): string {
    if names == [] then "" else if |names| == 1 then names[0] else names[0] + "." + Dots(names[1..])
  }

  lemma {:induction false} CutDotAt(head: string, rest: Option<string>)
    requires '.' !in head
    ensures CutDot(head + if rest.Some? then "." + rest.value else "") == (head, rest)
  {
    var tail := if rest.Some? then "." + rest.value else "";
    if head == [] {
      assert head + tail == tail;
    } else {
      assert (head + tail)[1..] == head[1..] + tail;
      CutDotAt(head[1..], rest);
      assert [head[0]] + head[1..] == head;
    }
  }

  /** A claim is named by the members that lead to it, with dots between them. */
  lemma {:induction false} LookupIsMember(v: J.Json, names: seq<string>)
    requires names != [] && forall i :: 0 <= i < |names| ==> '.' !in names[i]
    ensures LookupClaim(v, Dots(names)) == Member(v, names)
    decreases |names|
  {
    if |names| == 1 {
      CutDotAt(names[0], None);
      assert names[0] + "" == names[0];
    } else {
      CutDotAt(names[0], Some(Dots(names[1..])));
      assert names[0] + "." + Dots(names[1..]) == names[0] + ("." + Dots(names[1..]));
      if v.Obj? && names[0] in v.fields {
        LookupIsMember(v.fields[names[0]], names[1..]);
      }
    }
  }

  function Scalar(rc: Context, v: J.Json): string {
    match v
    case Str(s) => s
    case Bool(b) => if b then "true" else "false"
    case Null => ""
    case _ => rc.show(v)
  }

  function Resolve(rc: Context, t: Term): Option<string> {
    if t.claim == "" then Some(t.literal)
    else
      var v := LookupClaim(J.Obj(rc.claims), t.claim);
      if v.None? then None else Some(Scalar(rc, v.value))
  }

  /** What a term compares with: the text of the claim its names lead to, nothing if there is none, else its literal. */
  lemma ResolvedMeans(rc: Context, t: Term, names: seq<string>)
    requires names != [] && (forall i :: 0 <= i < |names| ==> '.' !in names[i]) && t.claim == Dots(names)
    ensures Resolve(rc, t) ==
            if t.claim == "" then Some(t.literal)
            else match Member(J.Obj(rc.claims), names)
              case None => None
              case Some(Str(s)) => Some(s)
              case Some(Bool(b)) => Some(if b then "true" else "false")
              case Some(Null) => Some("")
              case Some(other) => Some(rc.show(other))
  {
    LookupIsMember(J.Obj(rc.claims), names);
  }

  /** A payload value as text; a JSON null prints like the empty string. */
  function Printed(rc: Context, v: Value): string {
    if v.json.Some? then Scalar(rc, v.json.value) else v.text
  }

  // ----- the gates -----

  function ActionsFor(k: Kind): seq<Action> {
    match k
    case Read => [SelectRows]
    case Insert => [InsertRows]
    case Update => [UpdateRows]
    case Delete => [DeleteRows]
    case Upsert => [InsertRows, UpdateRows]
  }

  function WriteActions(k: Kind): seq<Action> {
    if k == Read || k == Delete then [] else ActionsFor(k)
  }

  predicate IsStar(c: SelectItem)
    requires c.Column?
  {
    c.path == ["*"] && c.cast == "" && c.last == NoStep
  }

  function BaseColumn(c: SelectItem): string
    requires c.Column?
  {
    if c.path == [] then "" else c.path[0]
  }

  predicate MaySelect(g: ColSet, items: seq<SelectItem>) {
    g.all || (items != [] && forall i :: 0 <= i < |items| && items[i].Column? ==>
        !IsStar(items[i]) && BaseColumn(items[i]) in g.cols)
  }

  predicate MayWrite(g: ColSet, w: Write) {
    g.all || ((forall i :: 0 <= i < |w.columns| ==> w.columns[i] in g.cols) && forall k :: k in w.set_ ==> k in g.cols)
  }

  predicate Projects(q: Request) { q.kind == Read || (q.write.Some? && q.write.value.returnsRows) }

  predicate Passes(reg: Registry, rc: Context, q: Request) {
    && (forall i :: 0 <= i < |ActionsFor(q.kind)| ==> GrantKey(rc.role, q.rel, ActionsFor(q.kind)[i]) in reg.grants)
    && (Projects(q) ==>
          var k := GrantKey(rc.role, q.rel, SelectRows);
          k in reg.grants && MaySelect(reg.grants[k], q.select))
    && (q.write.Some? ==> forall i :: 0 <= i < |WriteActions(q.kind)| ==>
          var k := GrantKey(rc.role, q.rel, WriteActions(q.kind)[i]);
          k in reg.grants && MayWrite(reg.grants[k], q.write.value))
  }

  method GateSelect(g: ColSet, items: seq<SelectItem>) returns (ok: bool)
    ensures ok == MaySelect(g, items)
  {
    if g.all {
      return true;
    }
    if |items| == 0 {
      return false;
    }
    for i := 0 to |items|
      invariant forall j :: 0 <= j < i && items[j].Column? ==> !IsStar(items[j]) && BaseColumn(items[j]) in g.cols
    {
      if items[i].Column? && (IsStar(items[i]) || BaseColumn(items[i]) !in g.cols) {
        return false;
      }
    }
    return true;
  }

  method GateWriteColumns(g: ColSet, w: Write) returns (ok: bool)
    ensures ok == MayWrite(g, w)
  {
    if g.all {
      return true;
    }
    for i := 0 to |w.columns|
      invariant forall j :: 0 <= j < i ==> w.columns[j] in g.cols
    {
      if w.columns[i] !in g.cols {
        return false;
      }
    }
    var todo := w.set_.Keys;
    while todo != {}
      invariant todo <= w.set_.Keys && forall k :: k in w.set_ && k !in todo ==> k in g.cols
      decreases todo
    {
      var k :| k in todo;
      if k !in g.cols {
        return false;
      }
      todo := todo - {k};
    }
    return true;
  }

  // ----- row security -----

  /** A USING term as a filter; a missing claim becomes the empty IN, which no row satisfies. */
  function Condition(rc: Context, t: Term): Cond {
    var rhs := Resolve(rc, t);
    if rhs.None? then Never(t.column) else Plain(t.column, if t.op == TermEq then Eq else Neq, rhs.value)
  }

  function Plain(column: string, op: Op, text: string): Cond {
    Compare([column], NoStep, op, Text(text), QNone, false, FtsPlain, "")
  }

  function Never(column: string): Cond {
    Compare([column], NoStep, In, List([]), QNone, false, FtsPlain, "")
  }

  function Conditions(rc: Context, terms: seq<Term>): (r: seq<Cond>)
    ensures |r| == |terms|
  {
    seq(|terms|, i requires 0 <= i < |terms| => Condition(rc, terms[i]))
  }

  /** The injected filter: the client's whole tree is one child of a new top-level conjunction. */
  function Injected(where: Option<Cond>, conds: seq<Cond>): Option<Cond> {
    if conds == [] then where else Some(And((if where.Some? then [where.value] else []) + conds))
  }

  predicate TermPasses(rc: Context, t: Term, row: map<string, Value>, skipAbsent: bool) {
    if t.column !in row then skipAbsent
    else
      var rhs := Resolve(rc, t);
      rhs.Some? && (Printed(rc, row[t.column]) == rhs.value <==> t.op == TermEq)
  }

  predicate CheckPasses(rc: Context, terms: seq<Term>, row: map<string, Value>, skipAbsent: bool) {
    forall i :: 0 <= i < |terms| ==> TermPasses(rc, terms[i], row, skipAbsent)
  }

  method UsingConds(rc: Context, terms: seq<Term>) returns (conds: seq<Cond>)
    ensures conds == Conditions(rc, terms)
  {
    conds := [];
    for i := 0 to |terms|
      invariant conds == Conditions(rc, terms)[..i]
    {
      conds := conds + [Condition(rc, terms[i])];
    }
    assert Conditions(rc, terms)[..|terms|] == Conditions(rc, terms);
  }

  method EvalPredicate(rc: Context, terms: seq<Term>, row: map<string, Value>, skipAbsent: bool) returns (ok: bool)
    ensures ok == CheckPasses(rc, terms, row, skipAbsent)
  {
    for i := 0 to |terms|
      invariant forall j :: 0 <= j < i ==> TermPasses(rc, terms[j], row, skipAbsent)
    {
      var t := terms[i];
      if t.column !in row {
        if !skipAbsent {
          return false;
        }
      } else {
        var rhs := Resolve(rc, t);
        if rhs.None? {
          return false;
        }
        var cv := Printed(rc, row[t.column]);
        if (t.op == TermEq && cv != rhs.value) || (t.op == TermNeq && cv == rhs.value) {
          return false;
        }
      }
    }
    return true;
  }

  /** Every row a write spells out passes the merged WITH CHECK. */
  predicate WriteChecked(rc: Context, q: Request, check: seq<Term>) {
    && (q.kind == Insert || q.kind == Upsert ==>
          q.write.Some? && forall i :: 0 <= i < |q.write.value.rows| ==>
              CheckPasses(rc, check, q.write.value.rows[i], false))
    && (q.kind == Update ==> q.write.Some? && CheckPasses(rc, check, q.write.value.set_, true))
  }

  predicate Filters(k: Kind) { k != Insert }

  /** What authorization answers, and the filter it leaves behind. */
  function Decision(reg: Registry, rc: Context, q: Request, where: Option<Cond>): (Option<Error>, Option<Cond>) {
    var k := PolicyKey(rc.role, q.rel);
    if !Passes(reg, rc, q) then (Some(PermissionDenied(q.rel, rc.anonymous)), where)
    else if k !in reg.policies then (None, where)
    else
      (if WriteChecked(rc, q, reg.policies[k].check) then None else Some(RlsViolation(q.rel)),
       if Filters(q.kind) then Injected(where, Conditions(rc, reg.policies[k].using)) else where)
  }

  class Query {
    const request: Request
    var where: Option<Cond>

    constructor (request: Request, where: Option<Cond>)
      ensures this.request == request && this.where == where
    {
      this.request, this.where := request, where;
    }

    /** Gates the query and injects its policy; a write must carry its payload. */
    method Authorize(reg: Registry, rc: Context) returns (err: Option<Error>)
      requires request.kind != Read && request.kind != Delete ==> request.write.Some?
      modifies this`where
      ensures (err, where) == Decision(reg, rc, request, old(where))
    {
      var q := request;
      var denied := Some(PermissionDenied(q.rel, rc.anonymous));
      var actions := ActionsFor(q.kind);
      for i := 0 to |actions|
        invariant where == old(where) && forall j :: 0 <= j < i ==> GrantKey(rc.role, q.rel, actions[j]) in reg.grants
      {
        if GrantKey(rc.role, q.rel, actions[i]) !in reg.grants {
          assert GrantKey(rc.role, q.rel, ActionsFor(q.kind)[i]) !in reg.grants;
          return denied;
        }
      }
      if Projects(q) {
        var k := GrantKey(rc.role, q.rel, SelectRows);
        if k !in reg.grants {
          return denied;
        }
        var ok := GateSelect(reg.grants[k], q.select);
        if !ok {
          return denied;
        }
      }
      if q.write.Some? {
        var writes := WriteActions(q.kind);
        for i := 0 to |writes|
          invariant where == old(where)
          invariant forall j :: 0 <= j < i ==>
                      var k := GrantKey(rc.role, q.rel, writes[j]);
                      k in reg.grants && MayWrite(reg.grants[k], q.write.value)
        {
          var k := GrantKey(rc.role, q.rel, writes[i]);
          assert k == GrantKey(rc.role, q.rel, WriteActions(q.kind)[i]);
          if k !in reg.grants {
            return denied;
          }
          var ok := GateWriteColumns(reg.grants[k], q.write.value);
          if !ok {
            return denied;
          }
        }
      }
      assert Passes(reg, rc, q);
      err := RowSecurity(reg, rc);
    }

    method RowSecurity(reg: Registry, rc: Context) returns (err: Option<Error>)
      requires request.kind != Read && request.kind != Delete ==> request.write.Some?
      requires Passes(reg, rc, request)
      modifies this`where
      ensures (err, where) == Decision(reg, rc, request, old(where))
    {
      var q := request;
      var k := PolicyKey(rc.role, q.rel);
      if k !in reg.policies {
        return None;
      }
      var terms := reg.policies[k];
      if Filters(q.kind) {
        var conds := UsingConds(rc, terms.using);
        where := Injected(where, conds);
      }
      ghost var filter := where;
      if q.kind == Insert || q.kind == Upsert {
        var rows := q.write.value.rows;
        for i := 0 to |rows|
          invariant where == filter && forall j :: 0 <= j < i ==> CheckPasses(rc, terms.check, rows[j], false)
        {
          var ok := EvalPredicate(rc, terms.check, rows[i], false);
          if !ok {
            assert !CheckPasses(rc, terms.check, q.write.value.rows[i], false);
            return Some(RlsViolation(q.rel));
          }
        }
      } else if q.kind == Update {
        var ok := EvalPredicate(rc, terms.check, q.write.value.set_, true);
        if !ok {
          return Some(RlsViolation(q.rel));
        }
      }
      return None;
    }
  }

  // ----- what an accepted request means, in terms of the declarations -----

  ghost predicate Matches(p: Policy, rc: Context, rel: string) { p.role == rc.role && p.rel == rel }

  /** The declared registry: built from lists of grants and policies, in any order. */
  ghost predicate Declares(grants: seq<Grant>, policies: seq<Policy>, reg: Registry) {
    MergesGrants(grants, reg.grants) && MergesPolicies(policies, reg.policies)
  }

  ghost predicate Granted(grants: seq<Grant>, k: GrantKey, column: Option<string>) {
    exists i :: 0 <= i < |grants| && KeyOf(grants[i]) == k &&
                (column.None? || grants[i].columns == [] || column.value in ColumnsOf(grants[i]))
  }

  ghost predicate WhollyGranted(grants: seq<Grant>, k: GrantKey) {
    exists i :: 0 <= i < |grants| && KeyOf(grants[i]) == k && grants[i].columns == []
  }

  /** A plain item is not a star, and the column it starts from is granted. */
  ghost predicate ItemGranted(grants: seq<Grant>, k: GrantKey, item: SelectItem) {
    item.Column? ==>
      && !(item.path == ["*"] && item.cast == "" && item.last == NoStep)
      && Granted(grants, k, Some(if item.path == [] then "" else item.path[0]))
  }

  /** A star or an empty selection needs a whole grant. Aggregates and embeds are not looked at. */
  ghost predicate SelectionGranted(grants: seq<Grant>, k: GrantKey, items: seq<SelectItem>) {
    || WhollyGranted(grants, k)
    || (Granted(grants, k, None) && items != [] && forall i :: 0 <= i < |items| ==> ItemGranted(grants, k, items[i]))
  }

  /** The action is granted, and for it every column that the payload names or assigns. */
  ghost predicate WriteGranted(grants: seq<Grant>, k: GrantKey, write: Option<Write>) {
    && Granted(grants, k, None)
    && (write.Some? ==>
          forall c :: c in write.value.columns || c in write.value.set_ ==> Granted(grants, k, Some(c)))
  }

  /** What each kind of request needs; one that answers with rows needs its selection too. */
  ghost predicate Privileged(grants: seq<Grant>, rc: Context, q: Request) {
    && (match q.kind
        case Read => true
        case Insert => WriteGranted(grants, GrantKey(rc.role, q.rel, InsertRows), q.write)
        case Update => WriteGranted(grants, GrantKey(rc.role, q.rel, UpdateRows), q.write)
        case Delete => Granted(grants, GrantKey(rc.role, q.rel, DeleteRows), None)
        case Upsert =>
          && WriteGranted(grants, GrantKey(rc.role, q.rel, InsertRows), q.write)
          && WriteGranted(grants, GrantKey(rc.role, q.rel, UpdateRows), q.write))
    && (q.kind == Read || (q.write.Some? && q.write.value.returnsRows) ==>
          SelectionGranted(grants, GrantKey(rc.role, q.rel, SelectRows), q.select))
  }

  /** Every row a write spells out passes every WITH CHECK term of every matching policy. */
  ghost predicate Checked(policies: seq<Policy>, rc: Context, q: Request) {
    forall i, t :: 0 <= i < |policies| && Matches(policies[i], rc, q.rel) && t in policies[i].check ==>
        TermChecked(rc, q, t)
  }

  ghost predicate TermChecked(rc: Context, q: Request, t: Term) {
    && (q.kind == Insert || q.kind == Upsert ==>
          q.write.Some? && forall n :: 0 <= n < |q.write.value.rows| ==>
              TermPasses(rc, t, q.write.value.rows[n], false))
    && (q.kind == Update ==> q.write.Some? && TermPasses(rc, t, q.write.value.set_, true))
  }

  lemma MergedGrantsMean(grants: seq<Grant>, reg: Registry, k: GrantKey)
    requires MergesGrants(grants, reg.grants)
    ensures k in reg.grants <==> Granted(grants, k, None)
    ensures k in reg.grants ==> (reg.grants[k].all <==> WhollyGranted(grants, k))
    ensures forall c :: Granted(grants, k, Some(c)) <==>
              k in reg.grants && (reg.grants[k].all || c in reg.grants[k].cols)
  {
  }

  lemma ItemMeans(grants: seq<Grant>, reg: Registry, k: GrantKey, item: SelectItem)
    requires MergesGrants(grants, reg.grants) && k in reg.grants && !reg.grants[k].all
    ensures ItemGranted(grants, k, item) <==>
            (item.Column? ==> !IsStar(item) && BaseColumn(item) in reg.grants[k].cols)
  {
    MergedGrantsMean(grants, reg, k);
  }

  lemma SelectMeans(grants: seq<Grant>, reg: Registry, k: GrantKey, items: seq<SelectItem>)
    requires MergesGrants(grants, reg.grants)
    ensures k in reg.grants && MaySelect(reg.grants[k], items) <==> SelectionGranted(grants, k, items)
  {
    MergedGrantsMean(grants, reg, k);
    if k in reg.grants && !reg.grants[k].all {
      forall i | 0 <= i < |items|
        ensures ItemGranted(grants, k, items[i]) <==>
                (items[i].Column? ==> !IsStar(items[i]) && BaseColumn(items[i]) in reg.grants[k].cols)
      {
        ItemMeans(grants, reg, k, items[i]);
      }
    }
  }

  lemma WriteMeans(grants: seq<Grant>, reg: Registry, k: GrantKey, write: Option<Write>)
    requires MergesGrants(grants, reg.grants)
    ensures k in reg.grants && (write.Some? ==> MayWrite(reg.grants[k], write.value)) <==>
            WriteGranted(grants, k, write)
  {
    MergedGrantsMean(grants, reg, k);
    if k in reg.grants && write.Some? {
      var w := write.value;
      assert forall i :: 0 <= i < |w.columns| ==> w.columns[i] in w.columns;
    }
  }

  /** The gates of a kind, action by action. */
  lemma KindPasses(reg: Registry, rc: Context, q: Request)
    ensures var held := (a: Action) => GrantKey(rc.role, q.rel, a) in reg.grants;
            var fits := (a: Action) requires held(a) =>
              q.write.Some? ==> MayWrite(reg.grants[GrantKey(rc.role, q.rel, a)], q.write.value);
            Passes(reg, rc, q) <==>
            && (match q.kind
                case Read => held(SelectRows)
                case Insert => held(InsertRows) && fits(InsertRows)
                case Update => held(UpdateRows) && fits(UpdateRows)
                case Delete => held(DeleteRows)
                case Upsert => held(InsertRows) && fits(InsertRows) && held(UpdateRows) && fits(UpdateRows))
            && (Projects(q) ==>
                  held(SelectRows) && MaySelect(reg.grants[GrantKey(rc.role, q.rel, SelectRows)], q.select))
  {
    var actions, writes := ActionsFor(q.kind), WriteActions(q.kind);
    assert q.kind == Upsert ==> actions[0] == InsertRows && actions[1] == UpdateRows;
    assert q.kind == Upsert ==> writes[0] == InsertRows && writes[1] == UpdateRows;
    assert q.kind == Insert ==> actions[0] == InsertRows && writes[0] == InsertRows;
    assert q.kind == Update ==> actions[0] == UpdateRows && writes[0] == UpdateRows;
    assert q.kind == Delete ==> actions[0] == DeleteRows && writes == [];
    assert q.kind == Read ==> actions[0] == SelectRows && writes == [];
  }

  /** The three gates together let through exactly what the declared grants cover. */
  lemma PassesIffPrivileged(grants: seq<Grant>, reg: Registry, rc: Context, q: Request)
    requires MergesGrants(grants, reg.grants)
    ensures Passes(reg, rc, q) <==> Privileged(grants, rc, q)
  {
    KindPasses(reg, rc, q);
    SelectMeans(grants, reg, GrantKey(rc.role, q.rel, SelectRows), q.select);
    WriteMeans(grants, reg, GrantKey(rc.role, q.rel, InsertRows), q.write);
    WriteMeans(grants, reg, GrantKey(rc.role, q.rel, UpdateRows), q.write);
    MergedGrantsMean(grants, reg, GrantKey(rc.role, q.rel, DeleteRows));
  }

  lemma ChecksPassIff(policies: seq<Policy>, reg: Registry, rc: Context, q: Request)
    requires MergesPolicies(policies, reg.policies)
    requires q.kind != Read && q.kind != Delete ==> q.write.Some?
    ensures var k := PolicyKey(rc.role, q.rel);
            Checked(policies, rc, q) <==> (k in reg.policies ==> WriteChecked(rc, q, reg.policies[k].check))
  {
    var k := PolicyKey(rc.role, q.rel);
    assert MergedTerms(policies, k) == if k in reg.policies then Some(reg.policies[k]) else None;
    if k in reg.policies {
      TermByTerm(rc, q, reg.policies[k].check);
    }
    if !Checked(policies, rc, q) {
      var i, t :| 0 <= i < |policies| && Matches(policies[i], rc, q.rel) && t in policies[i].check &&
          !TermChecked(rc, q, t);
      CheckIsMerged(policies, reg, rc, q.rel, i, t);
    } else if k in reg.policies {
      var check := reg.policies[k].check;
      forall j | 0 <= j < |check| ensures TermChecked(rc, q, check[j]) {
        MergedTermsAre(policies, k, check[j]);
        var i :| 0 <= i < |policies| && PolicyKey(policies[i].role, policies[i].rel) == k &&
            check[j] in policies[i].check;
        assert Matches(policies[i], rc, q.rel);
      }
    }
  }

  lemma TermByTerm(rc: Context, q: Request, check: seq<Term>)
    requires q.kind != Read && q.kind != Delete ==> q.write.Some?
    ensures WriteChecked(rc, q, check) <==> forall j :: 0 <= j < |check| ==> TermChecked(rc, q, check[j])
  {
  }

  /**
  A request is accepted exactly when the declarations privilege what the gates look at and its rows pass every
  WITH CHECK.
  */
  lemma AcceptedIff(grants: seq<Grant>, policies: seq<Policy>, reg: Registry, rc: Context, q: Request,
                    where: Option<Cond>)
    requires Declares(grants, policies, reg) && (q.kind != Read && q.kind != Delete ==> q.write.Some?)
    ensures Decision(reg, rc, q, where).0.None? <==> Privileged(grants, rc, q) && Checked(policies, rc, q)
  {
    PassesIffPrivileged(grants, reg, rc, q);
    ChecksPassIff(policies, reg, rc, q);
  }

  // ----- the meaning of the filter -----

  /** A stored row; an absent column is NULL. */
  type Row = map<string, string>

  /** A policy term on a stored row. A missing claim or a NULL makes it false. */
  predicate TermHolds(rc: Context, t: Term, row: Row) {
    var rhs := Resolve(rc, t);
    rhs.Some? && t.column in row && (row[t.column] == rhs.value <==> t.op == TermEq)
  }

  /** The engine's truth for the comparisons that policies use; the client's own leaves are arbitrary. */
  ghost predicate Reads(leaf: Cond -> Truth, row: Row) {
    && (forall c, v :: leaf(Plain(c, Eq, v)) == if c in row then FromBool(row[c] == v) else Unknown)
    && (forall c, v :: leaf(Plain(c, Neq, v)) == if c in row then FromBool(row[c] != v) else Unknown)
    && (forall c :: leaf(Never(c)) == False)
  }

  ghost predicate Keeps(where: Option<Cond>, leaf: Cond -> Truth) {
    where.None? || Eval(where.value, leaf) == True
  }

  /** Every USING term of every matching policy is true of the row. */
  ghost predicate PoliciesHold(policies: seq<Policy>, rc: Context, rel: string, row: Row) {
    forall i, t :: 0 <= i < |policies| && Matches(policies[i], rc, rel) && t in policies[i].using ==>
        TermHolds(rc, t, row)
  }

  lemma ConditionMeansTerm(rc: Context, t: Term, leaf: Cond -> Truth, row: Row)
    requires Reads(leaf, row)
    ensures Eval(Condition(rc, t), leaf) == True <==> TermHolds(rc, t, row)
  {
    var rhs := Resolve(rc, t);
    assert Eval(Condition(rc, t), leaf) == leaf(Condition(rc, t));
  }

  lemma InjectedMeansBoth(where: Option<Cond>, conds: seq<Cond>, leaf: Cond -> Truth)
    ensures Keeps(Injected(where, conds), leaf) <==>
            Keeps(where, leaf) && forall i :: 0 <= i < |conds| ==> Eval(conds[i], leaf) == True
  {
    if conds != [] {
      var kids := (if where.Some? then [where.value] else []) + conds;
      var off := |kids| - |conds|;
      assert forall i :: 0 <= i < |conds| ==> kids[off + i] == conds[i];
      assert forall i :: off <= i < |kids| ==> kids[i] == conds[i - off];
      assert where.Some? ==> kids[0] == where.value;
      assert Eval(And(kids), leaf) == True <==> forall i :: 0 <= i < |kids| ==> Eval(kids[i], leaf) == True;
    }
  }

  /**
  On a read, update, delete or upsert the resulting filter is true of a row exactly when the client's filter is and
  every USING term of every matching policy is.
  */
  lemma FilterIsClientAndPolicies(grants: seq<Grant>, policies: seq<Policy>, reg: Registry, rc: Context, q: Request,
                                  where: Option<Cond>, leaf: Cond -> Truth, row: Row)
    requires Declares(grants, policies, reg) && q.kind != Insert && Decision(reg, rc, q, where).0.None? &&
               Reads(leaf, row)
    ensures Keeps(Decision(reg, rc, q, where).1, leaf) <==>
            Keeps(where, leaf) && PoliciesHold(policies, rc, q.rel, row)
  {
    var k := PolicyKey(rc.role, q.rel);
    UsingIsMerged(policies, reg, rc, q.rel, row);
    if k in reg.policies {
      var using := reg.policies[k].using;
      var conds := Conditions(rc, using);
      InjectedMeansBoth(where, conds, leaf);
      forall i | 0 <= i < |using| ensures Eval(conds[i], leaf) == True <==> TermHolds(rc, using[i], row) {
        ConditionMeansTerm(rc, using[i], leaf, row);
      }
    }
  }

  lemma UsingIsMerged(policies: seq<Policy>, reg: Registry, rc: Context, rel: string, row: Row)
    requires MergesPolicies(policies, reg.policies)
    ensures var k := PolicyKey(rc.role, rel);
            PoliciesHold(policies, rc, rel, row) <==>
            (k in reg.policies ==> forall j :: 0 <= j < |reg.policies[k].using| ==>
                TermHolds(rc, reg.policies[k].using[j], row))
  {
    var k := PolicyKey(rc.role, rel);
    assert MergedTerms(policies, k) == if k in reg.policies then Some(reg.policies[k]) else None;
    if PoliciesHold(policies, rc, rel, row) && k in reg.policies {
      forall j | 0 <= j < |reg.policies[k].using| ensures TermHolds(rc, reg.policies[k].using[j], row) {
        var t := reg.policies[k].using[j];
        MergedTermsAre(policies, k, t);
        var i :| 0 <= i < |policies| && PolicyKey(policies[i].role, policies[i].rel) == k && t in policies[i].using;
        assert Matches(policies[i], rc, rel);
      }
    }
    if !PoliciesHold(policies, rc, rel, row) {
      var i, t :| 0 <= i < |policies| && Matches(policies[i], rc, rel) && t in policies[i].using &&
          !TermHolds(rc, t, row);
      assert PolicyKey(policies[i].role, policies[i].rel) == k;
      MergedTermsAre(policies, k, t);
    }
  }

  // ----- WITH CHECK -----

  predicate NonNull(v: Value) { v.json.Some? && v.json.value != J.Null }

  /** The row a write leaves: assigned columns take the payload's text, or become NULL; the rest stay. */
  function Assigned(rc: Context, old_: Row, set_: map<string, Value>): Row {
    map c | c in old_.Keys + set_.Keys && (c in set_ ==> NonNull(set_[c])) ::
      if c in set_ then Printed(rc, set_[c]) else old_[c]
  }

  /**
  When a WITH CHECK term is also a USING term and no NULL is assigned to its column, every row that an accepted update
  produces satisfies it.
  */
  lemma UpdateSatisfiesCheck(grants: seq<Grant>, policies: seq<Policy>, reg: Registry, rc: Context, q: Request,
                             where: Option<Cond>, leaf: Cond -> Truth, row: Row, i: nat, u: nat, t: Term)
    requires Declares(grants, policies, reg) && q.kind == Update && q.write.Some? && Decision(reg, rc, q, where).0.None?
    requires Reads(leaf, row) && Keeps(Decision(reg, rc, q, where).1, leaf)
    requires t.column in q.write.value.set_ ==> NonNull(q.write.value.set_[t.column])
    requires i < |policies| && Matches(policies[i], rc, q.rel) && t in policies[i].check
    requires u < |policies| && Matches(policies[u], rc, q.rel) && t in policies[u].using
    ensures TermHolds(rc, t, Assigned(rc, row, q.write.value.set_))
  {
    FilterIsClientAndPolicies(grants, policies, reg, rc, q, where, leaf, row);
    assert TermHolds(rc, t, row);
    CheckIsMerged(policies, reg, rc, q.rel, i, t);
  }

  lemma CheckIsMerged(policies: seq<Policy>, reg: Registry, rc: Context, rel: string, i: nat, t: Term)
    requires MergesPolicies(policies, reg.policies)
    requires i < |policies| && Matches(policies[i], rc, rel) && t in policies[i].check
    ensures var k := PolicyKey(rc.role, rel);
            k in reg.policies && exists j :: 0 <= j < |reg.policies[k].check| && reg.policies[k].check[j] == t
  {
    var k := PolicyKey(rc.role, rel);
    assert MergedTerms(policies, k) == if k in reg.policies then Some(reg.policies[k]) else None;
    MergedTermsAre(policies, k, t);
  }

  /**
  A row that an accepted insert or upsert spells out satisfies a WITH CHECK term exactly if its column is not NULL.
  */
  lemma InsertSatisfiesCheckIff(grants: seq<Grant>, policies: seq<Policy>, reg: Registry, rc: Context, q: Request,
                                where: Option<Cond>, n: nat, i: nat, t: Term)
    requires Declares(grants, policies, reg) && (q.kind == Insert || q.kind == Upsert) && q.write.Some?
    requires Decision(reg, rc, q, where).0.None? && n < |q.write.value.rows|
    requires i < |policies| && Matches(policies[i], rc, q.rel) && t in policies[i].check
    ensures var row := q.write.value.rows[n];
            t.column in row && (TermHolds(rc, t, Assigned(rc, map[], row)) <==> NonNull(row[t.column]))
  {
    CheckIsMerged(policies, reg, rc, q.rel, i, t);
    var check := reg.policies[PolicyKey(rc.role, q.rel)].check;
    assert CheckPasses(rc, check, q.write.value.rows[n], false);
    var j :| 0 <= j < |check| && check[j] == t;
    assert TermPasses(rc, check[j], q.write.value.rows[n], false);
  }

  const EMPTY_TEXT := Value("", [], Some(J.Str("")))

  /**
  The gate cannot tell a NULL from the empty text, as both print alike: an update that assigns NULL gets the very answer
  that it would get for the empty text.
  */
  lemma NullDecidedAsEmpty(reg: Registry, rc: Context, q: Request, where: Option<Cond>, column: string)
    requires q.kind == Update && q.write.Some? && column in q.write.value.set_ && q.write.value.set_[column] == Text("")
    ensures var w := q.write.value;
            var empty := q.(write := Some(w.(set_ := w.set_[column := EMPTY_TEXT])));
            Decision(reg, rc, q, where) == Decision(reg, rc, empty, where)
  {
    var w := q.write.value;
    var set' := w.set_[column := EMPTY_TEXT];
    var empty := q.(write := Some(w.(set_ := set')));
    assert Printed(rc, EMPTY_TEXT) == "" == Printed(rc, w.set_[column]);
    assert forall t: Term :: TermPasses(rc, t, w.set_, true) <==> TermPasses(rc, t, set', true);
    SamePrivilege(reg, rc, q, empty);
    var k := PolicyKey(rc.role, q.rel);
    if k in reg.policies {
      assert CheckPasses(rc, reg.policies[k].check, w.set_, true) <==>
          CheckPasses(rc, reg.policies[k].check, set', true);
    }
  }

  /** The gates look at a payload's columns, not at its values. */
  lemma SamePrivilege(reg: Registry, rc: Context, q: Request, r: Request)
    requires q.write.Some? && r.write.Some? && q.write.value.set_.Keys == r.write.value.set_.Keys
    requires r == q.(write := Some(q.write.value.(set_ := r.write.value.set_)))
    ensures Passes(reg, rc, q) == Passes(reg, rc, r)
  {
    assert forall g :: MayWrite(g, q.write.value) == MayWrite(g, r.write.value);
  }
}
