/** A write from its Prefer header to its commit (httpapi/server.go, backend/postgres/execute.go, backend/spi.go). */
module WriteTransaction {
  import opened Wrappers
  import opened Preferences
  import opened RowOrder
  import W = WriteShape

  type Row = W.Row

  datatype Kind = Insert | Update | Upsert | Delete

  datatype Error =
    | InvalidPreferences(tokens: seq<string>)
    | Refused
    | CompileError
    | DriverError
    | TooManyAffected(n: int)
    | SingularZeroMany(n: int)

  /** What the mutation's statement hands back: its returned columns and rows, or only a command tag. */
  datatype Answer = Answer(cols: seq<string>, rows: seq<Row>, tag: int)

  /** The driver gives every row all columns. */
  type Ran = a: Answer | forall i :: 0 <= i < |a.rows| ==> |a.rows[i]| == |a.cols| witness Answer([], [], 0)

  /**
  What the driver does in one run; any step may fail. The session step and the mutation also say what
  they leave in the transaction's copy of the database, whether they fail or not. A commit says apart
  whether it took effect and whether it reported success.
  */
  datatype Driver<!D> = Driver(
    begins: bool,
    session: D -> (D, bool),
    mutate: D -> (D, Option<Ran>),
    controls: bool,
    commits: bool,
    reported: bool)

  /** The mutation, as far as the protocol looks at it. */
  datatype Mutation = Mutation(
    kind: Kind, rows: nat, assignments: nat, returning: seq<string>, compiles: bool,
    tx: Option<TxMode>, maxRows: Option<int>, singular: bool,
    order: seq<W.OrderTerm>, limit: Option<int>, offset: Option<int>)

  datatype Written = Written(affected: int, cols: seq<string>, rows: seq<Row>, inserted: Option<nat>)

  predicate NoOp(m: Mutation) { (m.kind == Insert && m.rows == 0) || (m.kind == Update && m.assignments == 0) }

  /** A count that is not known (None) cannot exceed a bound. */
  function EnforceMaxAffected(maxRows: Option<int>, affected: Option<int>): (e: Option<Error>)
    ensures e.None? <==> forall bound, n :: maxRows == Some(bound) && affected == Some(n) ==> n <= bound
  {
    if maxRows.Some? && affected.Some? && affected.value > maxRows.value
    then Some(TooManyAffected(affected.value)) else None
  }

  function EnforceSingularWrite(singular: bool, affected: Option<int>): (e: Option<Error>)
    ensures e.None? <==> forall n :: singular && affected == Some(n) ==> n == 1
  {
    if singular && affected.Some? && affected.value != 1 then Some(SingularZeroMany(affected.value)) else None
  }

  // ----- the xmax column of an upsert -----

  /** A zero or empty xmax marks a row with no prior version. */
  predicate NewRow(xmax: Cell) {
    match xmax
    case Text(s) => s == "0" || s == ""
    case Num(n, _) => n == 0.0
    case _ => true
  }

  /** A row had a prior version exactly when its xmax is a number other than zero, or a text that is not empty or 0. */
  lemma PriorVersionIff(xmax: Cell)
    ensures !NewRow(xmax) <==> (xmax.Num? && xmax.n != 0.0) || (xmax.Text? && xmax.s !in ["", "0"])
  {
  }

  predicate Inserted(row: Row, at: nat) { at < |row| ==> NewRow(row[at]) }

  function Drop(row: Row, at: nat): Row { if at < |row| then row[..at] + row[at + 1..] else row }

  method RemoveColumn(row: Row, at: nat) returns (r: Row)
    ensures r == Drop(row, at)
  {
    r := [];
    for j := 0 to |row|
      invariant r == if at < j then row[..at] + row[at + 1..j] else row[..j]
    {
      if j != at {
        r := r + [row[j]];
      }
    }
  }

  /** The positions, among the first `n`, of new rows. */
  ghost function NewRows(rows: seq<Row>, at: nat, n: nat): set<nat>
    requires n <= |rows|
  {
    set i: nat | i < n && Inserted(rows[i], at)
  }

  lemma NewRowsNext(rows: seq<Row>, at: nat, n: nat)
    requires n < |rows|
    ensures |NewRows(rows, at, n + 1)| == |NewRows(rows, at, n)| + if Inserted(rows[n], at) then 1 else 0
  {
    assert NewRows(rows, at, n + 1) == NewRows(rows, at, n) + if Inserted(rows[n], at) then {n} else {};
  }

  /** The first `n` rows, stripped, and the count of new ones among them. */
  ghost predicate Stripped(rows: seq<Row>, at: nat, n: nat, cleaned: seq<Row>, inserted: nat) {
    && n <= |rows| && |cleaned| == n && (forall i :: 0 <= i < n ==> cleaned[i] == Drop(rows[i], at))
    && inserted == |NewRows(rows, at, n)|
  }

  lemma StrippedNext(rows: seq<Row>, at: nat, n: nat, cleaned: seq<Row>, inserted: nat)
    requires Stripped(rows, at, n, cleaned, inserted) && n < |rows|
    ensures Stripped(rows, at, n + 1, cleaned + [Drop(rows[n], at)], inserted + if Inserted(rows[n], at) then 1 else 0)
  {
    NewRowsNext(rows, at, n);
  }

  /** Strips the xmax column and counts the rows that are new. */
  method StripXmax(rows: seq<Row>, at: nat) returns (cleaned: seq<Row>, inserted: nat)
    ensures |cleaned| == |rows| && forall i :: 0 <= i < |rows| ==> cleaned[i] == Drop(rows[i], at)
    ensures inserted == |NewRows(rows, at, |rows|)|
  {
    cleaned, inserted := [], 0;
    for i := 0 to |rows|
      invariant Stripped(rows, at, i, cleaned, inserted)
    {
      StrippedNext(rows, at, i, cleaned, inserted);
      if Inserted(rows[i], at) {
        inserted := inserted + 1;
      }
      var r := RemoveColumn(rows[i], at);
      cleaned := cleaned + [r];
    }
  }

  // ----- the transaction -----

  datatype Phase = Idle | Open | Committed | RolledBack

  class Transaction<D> {
    var stored: D    // what every other session sees
    var working: D   // this transaction's copy
    var phase: Phase

    constructor (db: D)
      ensures stored == db && phase == Idle
    {
      stored, working, phase := db, db, Idle;
    }

    method Begin()
      requires phase == Idle
      modifies this`working, this`phase
      ensures phase == Open && working == stored
    {
      working, phase := stored, Open;
    }

    method Commit(ok: bool)
      requires phase == Open
      modifies this`stored, this`phase
      ensures phase == (if ok then Committed else Open) && stored == if ok then working else old(stored)
    {
      if ok {
        stored, phase := working, Committed;
      }
    }

    /** The deferred call: it does nothing once the transaction is over. */
    method Rollback()
      modifies this`working, this`phase
      ensures phase == (if old(phase) == Open then RolledBack else old(phase))
    {
      if phase == Open {
        working, phase := stored, RolledBack;
      }
    }
  }

  // ----- what a run amounts to -----

  function Affected(m: Mutation, ran: Ran): int { if Returns(m) then |ran.rows| else ran.tag }

  /** An upsert always returns rows: xmax is added to its list. */
  predicate Returns(m: Mutation) { m.returning != [] || m.kind == Upsert }

  /** An upsert's last column is xmax, which the answer does not show. */
  predicate Strips(m: Mutation, ran: Ran) { m.kind == Upsert && |m.returning| < |ran.cols| }

  ghost function Shown(m: Mutation, ran: Ran): (rows: seq<Row>)
    ensures |rows| == |ran.rows|
  {
    seq(|ran.rows|, i requires 0 <= i < |ran.rows| =>
      if Strips(m, ran) then Drop(ran.rows[i], |m.returning|) else ran.rows[i])
  }

  ghost function ShownColumns(m: Mutation, ran: Ran): seq<string> {
    if Strips(m, ran) then ran.cols[..|m.returning|] + ran.cols[|m.returning| + 1..] else ran.cols
  }

  /** The answer shows a page of the arranged rows, and counts all of them. */
  ghost predicate Represents(m: Mutation, ran: Ran, w: Written) {
    && w.affected == Affected(m, ran)
    && (if Returns(m) then
          && w.cols == ShownColumns(m, ran)
          && (exists sorted :: W.Arranged(W.Keys(w.cols, m.order), Shown(m, ran), sorted) &&
                               w.rows == W.Page(sorted, m.limit, m.offset))
        else w.rows == [])
    && w.inserted == if Strips(m, ran) && Returns(m) then Some(|NewRows(ran.rows, |m.returning|, |ran.rows|)|) else None
  }

  function AfterSession<D>(d: Driver<D>, db: D): D { d.session(db).0 }

  function AfterMutation<D>(d: Driver<D>, db: D): D { d.mutate(AfterSession(d, db)).0 }

  function Outcomes<D>(d: Driver<D>, db: D): Option<Ran> { d.mutate(AfterSession(d, db)).1 }

  /** Every step up to the mutation, and the mutation itself, went through. */
  predicate Runs<D>(m: Mutation, d: Driver<D>, db: D) {
    d.begins && d.session(db).1 && !NoOp(m) && m.compiles && Outcomes(d, db).Some? && d.controls
  }

  predicate WithinBounds(m: Mutation, affected: int) {
    (m.maxRows.Some? ==> affected <= m.maxRows.value) && (m.singular ==> affected == 1)
  }

  predicate Durable<D>(m: Mutation, d: Driver<D>, db: D) {
    Runs(m, d, db) && WithinBounds(m, Affected(m, Outcomes(d, db).value)) && m.tx != Some(TxRollback) && d.commits
  }

  /**
  What makes a write durable, spelled out: every step goes through, an insert has rows and an update assignments, and
  the rows returned (the command tag, if none are asked for) are within max-affected, and one if singular.
  */
  lemma DurableIff<D>(m: Mutation, d: Driver<D>, db: D)
    ensures Durable(m, d, db) <==>
            && d.begins && d.session(db).1 && m.compiles && d.controls && d.commits && m.tx != Some(TxRollback)
            && !(m.kind.Insert? && m.rows == 0) && !(m.kind.Update? && m.assignments == 0)
            && match d.mutate(d.session(db).0).1
               case None => false
               case Some(ran) =>
                 var count := if m.returning == [] && !m.kind.Upsert? then ran.tag else |ran.rows|;
                 (forall bound :: m.maxRows == Some(bound) ==> count <= bound) && (m.singular ==> count == 1)
  {
  }

  /** Dropping a column keeps the others in order. */
  lemma DropKeepsOthers(row: Row, at: nat)
    requires at < |row|
    ensures |Drop(row, at)| == |row| - 1
    ensures forall i :: 0 <= i < |row| && i != at ==> Drop(row, at)[if i < at then i else i - 1] == row[i]
  {
  }

  /** A commit that took effect was reported. */
  predicate Truthful<D>(d: Driver<D>) { d.commits ==> d.reported }

  /** Reads a result: counts the rows, strips an upsert's xmax, and shapes what is shown. */
  method ReadAnswer(m: Mutation, ran: Ran) returns (w: Written)
    ensures Represents(m, ran, w)
  {
    if !Returns(m) {
      return Written(ran.tag, [], [], None);
    }
    var cols, rows, count := ran.cols, ran.rows, None;
    if m.kind == Upsert && |m.returning| < |cols| {
      var cleaned, inserted := StripXmax(rows, |m.returning|);
      cols, rows, count := cols[..|m.returning|] + cols[|m.returning| + 1..], cleaned, Some(inserted);
    }
    assert rows == Shown(m, ran);
    var page := W.ShapeWriteRepresentation(cols, rows, m.order, m.limit, m.offset);
    return Written(|rows|, cols, page, count);
  }

  /** Runs the statement and reads its result. */
  method Mutate<D>(m: Mutation, d: Driver<D>, tx: Transaction<D>) returns (r: Result<Written, Error>)
    requires tx.phase == Open
    modifies tx`working
    ensures tx.working == d.mutate(old(tx.working)).0
    ensures r.Ok? <==> d.mutate(old(tx.working)).1.Some?
    ensures r.Ok? ==> Represents(m, d.mutate(old(tx.working)).1.value, r.value)
  {
    var (db, ran) := d.mutate(tx.working);
    tx.working := db;
    if ran.None? {
      return Err(DriverError);
    }
    var w := ReadAnswer(m, ran.value);
    return Ok(w);
  }

  /** The steps between begin and the deferred rollback. */
  method Steps<D>(m: Mutation, d: Driver<D>, tx: Transaction<D>) returns (r: Result<Written, Error>)
    requires tx.phase == Open && tx.working == tx.stored && d.begins
    modifies tx
    ensures tx.phase == (if Durable(m, d, old(tx.stored)) then Committed else Open)
    ensures tx.stored == if tx.phase == Committed then AfterMutation(d, old(tx.stored)) else old(tx.stored)
    ensures tx.phase == Committed && Truthful(d) ==> r.Ok?
    ensures r.Ok? <==> Answers(m, d, old(tx.stored))
    ensures r.Ok? && NoOp(m) ==> r.value == Written(0, m.returning, [], None)
    ensures r.Ok? && !NoOp(m) ==> Represents(m, Outcomes(d, old(tx.stored)).value, r.value)
  {
    ghost var db := tx.stored;
    var (after, ok) := d.session(tx.working);
    tx.working := after;
    if !ok {
      return Err(DriverError);
    }
    if NoOp(m) {
      return Ok(Written(0, m.returning, [], None));
    }
    if !m.compiles {
      return Err(CompileError);
    }
    r := Mutate(m, d, tx);
    if r.Err? {
      return;
    }
    if !d.controls {
      return Err(DriverError);
    }
    var over := EnforceMaxAffected(m.maxRows, Some(r.value.affected));
    if over.Some? {
      return Err(over.value);
    }
    var wrong := EnforceSingularWrite(m.singular, Some(r.value.affected));
    if wrong.Some? {
      return Err(wrong.value);
    }
    if m.tx == Some(TxRollback) {
      return;
    }
    tx.Commit(d.commits);
    if !d.reported {
      return Err(DriverError);
    }
  }

  /** When no error comes back: a no-op, or a bounded run that rolls back as asked or reports its commit. */
  predicate Answers<D>(m: Mutation, d: Driver<D>, db: D) {
    || (d.begins && d.session(db).1 && NoOp(m))
    || (Runs(m, d, db) && WithinBounds(m, Affected(m, Outcomes(d, db).value)) &&
         (m.tx == Some(TxRollback) || d.reported))
  }

  /**
  The write as one transaction: whatever fails, it is over, and other sessions see either the whole
  mutation or nothing of it.
  */
  method ExecuteWrite<D>(m: Mutation, d: Driver<D>, tx: Transaction<D>) returns (r: Result<Written, Error>)
    requires tx.phase == Idle
    modifies tx
    ensures tx.phase != Open
    ensures tx.phase == Committed <==> Durable(m, d, old(tx.stored))
    ensures tx.stored == if tx.phase == Committed then AfterMutation(d, old(tx.stored)) else old(tx.stored)
    ensures tx.phase == Committed ==> WithinBounds(m, Affected(m, Outcomes(d, old(tx.stored)).value))
    ensures tx.phase == Committed && Truthful(d) ==> r.Ok?
    ensures r.Ok? <==> Answers(m, d, old(tx.stored))
    ensures r.Ok? && NoOp(m) ==> r.value == Written(0, m.returning, [], None)
    ensures r.Ok? && !NoOp(m) ==> Represents(m, Outcomes(d, old(tx.stored)).value, r.value)
  {
    if !d.begins {
      return Err(DriverError);
    }
    tx.Begin();
    r := Steps(m, d, tx);
    tx.Rollback();
  }

  /** The same driver, with another fate for its commit. */
  function Committing<D>(d: Driver<D>, commits: bool, reported: bool): Driver<D> {
    d.(commits := commits, reported := reported)
  }

  /** A durable write returns no error, in every run of every driver, exactly when commits are reported truthfully. */
  lemma DurableAnswersIffTruthful(commits: bool, reported: bool)
    ensures (forall m: Mutation, d: Driver<int>, db: int ::
               Durable(m, Committing(d, commits, reported), db) ==>
                   Answers(m, Committing(d, commits, reported), db)) <==>
            (commits ==> reported)
  {
    if commits && !reported {
      var d := Driver(true, (db: int) => (db, true), (db: int) => (db + 1, Some(Answer([], [], 1))), true, true, true);
      var m := Mutation(Delete, 0, 0, [], true, None, None, false, [], None, None);
      assert Durable(m, Committing(d, commits, reported), 0) && !Answers(m, Committing(d, commits, reported), 0);
    }
  }

  // ----- the request -----

  /** The mutation a request asks for, once its preferences are settled. */
  function Settled(zone: string -> bool, tokens: seq<Token>, policy: TxEnd, m: Mutation): Mutation {
    m.(tx := Some(Outcome(zone, tokens, policy)), maxRows := MaxAffected(zone, tokens))
  }

  /** Parses the preferences and settles the transaction mode and the bound by the server's policy. */
  method Settle(zone: string -> bool, headers: seq<string>, policy: TxEnd, parses: bool)
    returns (r: Result<(Option<TxMode>, Option<int>), Error>)
    ensures var tokens := Tokens(headers, |headers|);
            && (r.Ok? <==> parses && !StrictlyRefused(zone, tokens, policy))
            && (r.Ok? ==> && (r.value.0 == Some(TxRollback) <==> Outcome(zone, tokens, policy) == TxRollback)
                          && r.value.1 == MaxAffected(zone, tokens))
            && (Strict(zone, tokens) && Offenders(zone, tokens) != [] ==>
                 r == Err(InvalidPreferences(Offenders(zone, tokens))))
  {
    var p := new PreferSet();
    p.Parse(zone, headers);
    ghost var tokens := Tokens(headers, |headers|);
    if p.Rejected() {
      return Err(InvalidPreferences(p.invalid));
    }
    if !parses {
      return Err(Refused);
    }
    p.ResolveTx(policy, zone, tokens);
    if p.Rejected() {
      return Err(InvalidPreferences(p.invalid));
    }
    return Ok((p.tx, p.maxAffected));
  }

  /** The outcome is commit, and the count is within max-affected under strict handling and one if singular. */
  predicate Bounded<D>(zone: string -> bool, tokens: seq<Token>, policy: TxEnd, m: Mutation, d: Driver<D>, db: D) {
    && Outcomes(d, db).Some?
    && var affected := Affected(m, Outcomes(d, db).value);
       && Outcome(zone, tokens, policy) == TxCommit
       && (Strict(zone, tokens) && MaxAffected(zone, tokens).Some? ==> affected <= MaxAffected(zone, tokens).value)
       && (m.singular ==> affected == 1)
  }

  lemma DurableIsBounded<D>(zone: string -> bool, tokens: seq<Token>, policy: TxEnd, m: Mutation, d: Driver<D>, db: D)
    requires Durable(Settled(zone, tokens, policy, m), d, db)
    ensures Bounded(zone, tokens, policy, m, d, db)
  {
  }

  /**
  From the header to the commit, for every header list, policy and failing step. `parses` and `allowed`
  say whether the rest of the request parses and passes planning and authorization.
  */
  method HandleWrite<D>(zone: string -> bool, headers: seq<string>, policy: TxEnd, m: Mutation,
                        parses: bool, allowed: bool, d: Driver<D>, tx: Transaction<D>)
    returns (r: Result<Written, Error>)
    requires tx.phase == Idle
    modifies tx
    ensures tx.phase != Open
    ensures tx.stored == if tx.phase == Committed then AfterMutation(d, old(tx.stored)) else old(tx.stored)
    ensures var tokens := Tokens(headers, |headers|);
            tx.phase == Committed <==>
              && parses && allowed && !StrictlyRefused(zone, tokens, policy)
              && Durable(Settled(zone, tokens, policy, m), d, old(tx.stored))
    ensures tx.phase == Committed ==> Bounded(zone, Tokens(headers, |headers|), policy, m, d, old(tx.stored))
    ensures tx.phase == Committed && Truthful(d) ==>
              r.Ok? && r.value.affected == Affected(m, Outcomes(d, old(tx.stored)).value)
  {
    ghost var tokens := Tokens(headers, |headers|);
    var settled := Settle(zone, headers, policy, parses);
    if settled.Err? {
      return Err(settled.error);
    }
    if !allowed {
      return Err(Refused);
    }
    var n := m.(tx := settled.value.0, maxRows := settled.value.1);
    r := ExecuteWrite(n, d, tx);
    SameDurability(n, Settled(zone, tokens, policy, m), d, old(tx.stored));
    if tx.phase == Committed {
      DurableIsBounded(zone, tokens, policy, m, d, old(tx.stored));
    }
  }

  /** A mode left to the default commits like an explicit commit. */
  lemma SameDurability<D>(m: Mutation, n: Mutation, d: Driver<D>, db: D)
    requires n == m.(tx := n.tx) && (m.tx == Some(TxRollback) <==> n.tx == Some(TxRollback))
    ensures Durable(m, d, db) == Durable(n, d, db)
  {
  }
}
