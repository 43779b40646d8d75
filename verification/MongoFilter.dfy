/**
Lowering a filter tree to a MongoDB query document (backend/mongo/query.go), with the meaning
of both sides: three-valued SQL on one, MongoDB's matching rules on the other.
*/
module MongoFilter {
  import opened Wrappers
  import opened Ir
  import L = LikePattern
  import S = Strings

  // ----- documents -----

  datatype Val = VNull | VBool(b: bool) | VStr(s: string) | VDoc(fields: seq<Field>) | VArr(elems: seq<Val>)
  datatype Field = Field(key: string, value: Val)
  type Doc = seq<Field>

  datatype Error = UnsupportedNode | UnsupportedOperator(op: Op)

  // ----- the lowering -----

  function Dotted(path: seq<string>): string {
    if path == [] then ""
    else if |path| == 1 then path[0]
    else path[0] + "." + Dotted(path[1..])
  }

  predicate Dollar(s: string) { s != [] && s[0] == '$' }

  function FieldOp(field: string, op: string, v: Val): Doc {
    [Field(field, VDoc([Field(op, v)]))]
  }

  function Negate(d: Doc): Doc {
    if |d| == 1 && d[0].value.VDoc? && !Dollar(d[0].key)
    then FieldOp(d[0].key, "$not", d[0].value)
    else [Field("$nor", VArr([VDoc(d)]))]
  }

  function LowerIs(field: string, state: string): Doc {
    match state
    case "not_null" => FieldOp(field, "$ne", VNull)
    case "true" => FieldOp(field, "$eq", VBool(true))
    case "false" => FieldOp(field, "$eq", VBool(false))
    case _ => FieldOp(field, "$eq", VNull)
  }

  function RegexDoc(field: string, pattern: string, ci: bool): Doc {
    [Field(field, VDoc([Field("$regex", VStr(pattern))] + if ci then [Field("$options", VStr("i"))] else []))]
  }

  function Strings(l: seq<string>): seq<Val> {
    seq(|l|, i requires 0 <= i < |l| => VStr(l[i]))
  }

  /** The words of a text. */
  function Words(s: string): seq<string> {
    if s == [] then []
    else if S.Space(s[|s| - 1]) then Words(s[..|s| - 1])
    else
      var n := WordStart(s);
      Words(s[..n]) + [s[n..]]
  }

  /** Where the last word of a text begins. */
  function WordStart(s: string): (n: nat)
    ensures n <= |s| && (s != [] && !S.Space(s[|s| - 1]) ==> n < |s|)
  {
    if s == [] || S.Space(s[|s| - 1]) then |s| else WordStart(s[..|s| - 1])
  }

  function Spaced(words: seq<string>): string {
    if words == [] then "" else if |words| == 1 then words[0] else words[0] + " " + Spaced(words[1..])
  }

  /** The words with single spaces, in quotes for a phrase. */
  function FtsSearch(variant: FtsVariant, text: string): string {
    if variant == FtsPhrase then "\"" + Spaced(Words(text)) + "\"" else Spaced(Words(text))
  }

  /** The un-negated comparison. */
  function ComparePositive(c: Cond): Result<Doc, Error>
    requires c.Compare?
  {
    var f, v := Dotted(c.path), VStr(c.value.text);
    match c.op
    case Eq => Ok(FieldOp(f, "$eq", v))
    case Neq => Ok(FieldOp(f, "$ne", v))
    case Gt => Ok(FieldOp(f, "$gt", v))
    case Gte => Ok(FieldOp(f, "$gte", v))
    case Lt => Ok(FieldOp(f, "$lt", v))
    case Lte => Ok(FieldOp(f, "$lte", v))
    case In => Ok(FieldOp(f, "$in", VArr(Strings(c.value.list))))
    case Is => Ok(LowerIs(f, c.value.text))
    case Like => Ok(RegexDoc(f, L.Regex(c.value.text), false))
    case ILike => Ok(RegexDoc(f, L.Regex(c.value.text), true))
    case Match => Ok(RegexDoc(f, c.value.text, false))
    case IMatch => Ok(RegexDoc(f, c.value.text, true))
    case IsDistinct =>
      Ok([Field("$expr", VDoc([Field("$ne", VArr([
        VDoc([Field("$ifNull", VArr([VStr("$" + f), VNull]))]),
        v]))]))])
    case Fts => Ok([Field("$text", VDoc([Field("$search", VStr(FtsSearch(c.fts, c.value.text)))]))])
    case _ => Err(UnsupportedOperator(c.op))
  }

  function Lower(c: Cond): Result<Doc, Error>
    decreases c, 0
  {
    match c
    case And(kids) => (var parts :- LowerAll(kids); Ok([Field("$and", VArr(parts))]))
    case Or(kids) => (var parts :- LowerAll(kids); Ok([Field("$or", VArr(parts))]))
    case Not(kid) => (var inner :- Lower(kid); Ok(Negate(inner)))
    case Compare(_, _, _, _, _, _, _, _) =>
      var d :- ComparePositive(c);
      Ok(if c.negate then Negate(d) else d)
    case EmbedPredicate(_, _) => Err(UnsupportedNode)
  }

  function LowerAll(kids: seq<Cond>): Result<seq<Val>, Error>
    decreases kids, 1
  {
    if kids == [] then Ok([])
    else
      var rest := LowerAll(kids[..|kids| - 1]);
      if rest.Err? then rest
      else
        var d :- Lower(kids[|kids| - 1]);
        Ok(rest.value + [VDoc(d)])
  }

  method LowerFilter(c: Cond) returns (r: Result<Doc, Error>)
    ensures r == Lower(c)
    decreases c, 0
  {
    match c {
      case And(kids) => r := LowerGroup("$and", kids);
      case Or(kids) => r := LowerGroup("$or", kids);
      case Not(kid) =>
        var inner := LowerFilter(kid);
        r := if inner.Err? then inner else Ok(Negate(inner.value));
      case Compare(_, _, _, _, _, _, _, _) =>
        var d := ComparePositive(c);
        r := if d.Err? then d else Ok(if c.negate then Negate(d.value) else d.value);
      case EmbedPredicate(_, _) => r := Err(UnsupportedNode);
    }
  }

  method LowerGroup(op: string, kids: seq<Cond>) returns (r: Result<Doc, Error>)
    ensures r == match LowerAll(kids) case Ok(parts) => Ok([Field(op, VArr(parts))]) case Err(e) => Err(e)
    decreases kids, 1
  {
    var parts: seq<Val> := [];
    for i := 0 to |kids|
      invariant LowerAll(kids[..i]) == Ok(parts)
    {
      assert kids[..i + 1][..i] == kids[..i];
      var d := LowerFilter(kids[i]);
      if d.Err? {
        LowerAllFails(kids, i + 1);
        return Err(d.error);
      }
      parts := parts + [VDoc(d.value)];
    }
    assert kids[..|kids|] == kids;
    return Ok([Field(op, VArr(parts))]);
  }

  lemma {:induction false} LowerAllFails(kids: seq<Cond>, n: nat)
    requires n <= |kids| && LowerAll(kids[..n]).Err?
    ensures LowerAll(kids) == LowerAll(kids[..n])
    decreases |kids|
  {
    if n == |kids| {
      assert kids[..n] == kids;
    } else {
      assert kids[..|kids| - 1][..n] == kids[..n];
      LowerAllFails(kids[..|kids| - 1], n);
    }
  }

  // ----- when lowering fails -----

  predicate Unsupported(op: Op) {
    op in {Contains, Contained, Overlap, RangeSL, RangeSR, RangeNXR, RangeNXL, RangeAdj}
  }

  /** Some node of the tree has no MongoDB analog. */
  predicate HasUnsupported(c: Cond) {
    match c
    case And(kids) => exists i :: 0 <= i < |kids| && HasUnsupported(kids[i])
    case Or(kids) => exists i :: 0 <= i < |kids| && HasUnsupported(kids[i])
    case Not(kid) => HasUnsupported(kid)
    case EmbedPredicate(_, _) => true
    case Compare(_, _, op, _, _, _, _, _) => Unsupported(op)
  }

  lemma {:induction false} LowerFailsIffUnsupported(c: Cond)
    ensures Lower(c).Err? <==> HasUnsupported(c)
    decreases c, 0
  {
    match c
    case And(kids) => LowerAllFailsIff(kids);
    case Or(kids) => LowerAllFailsIff(kids);
    case Not(kid) => LowerFailsIffUnsupported(kid);
    case _ =>
  }

  lemma {:induction false} LowerAllFailsIff(kids: seq<Cond>)
    ensures LowerAll(kids).Err? <==> exists i :: 0 <= i < |kids| && HasUnsupported(kids[i])
    decreases kids, 1
  {
    if kids != [] {
      var init := kids[..|kids| - 1];
      LowerAllFailsIff(init);
      LowerFailsIffUnsupported(kids[|kids| - 1]);
      assert forall i :: 0 <= i < |init| ==> init[i] == kids[i];
    }
  }

  // ----- what a query document matches -----

  /** A stored value, perhaps a document of its own; a field absent from the record is missing. */
  datatype Stored = Null | Flag(b: bool) | Text(s: string) | Sub(fields: map<string, Stored>)
  type Record = map<string, Stored>

  /** What both engines share: the order of text, regular expressions, and case folding. */
  datatype Engine = Engine(
    less: (string, string) -> bool,
    regex: (string, bool, string) -> bool,
    fold: char -> char)

  function FoldFor(e: Engine, ci: bool): char -> char {
    if ci then e.fold else (c: char) => c
  }

  /** The engine reads the anchored fragment as `LikePattern` does. */
  ghost predicate ReadsFragment(e: Engine) {
    forall re: string, ci: bool, s: string ::
      L.RegexMatch(re, FoldFor(e, ci), s).Some? ==> e.regex(re, ci, s) == L.RegexMatch(re, FoldFor(e, ci), s).value
  }

  function Get(r: Record, f: string): Stored {
    if f in r then r[f] else Null
  }

  /** MongoDB reads a field name as the steps between its dots. */
  function Resolve(r: Record, f: string): Stored
    decreases |f|
  {
    var i := S.Index(f, '.');
    if i == |f| then Get(r, f)
    else match Get(r, f[..i]) case Sub(fields) => Resolve(fields, f[i + 1..]) case _ => Null
  }

  /** SQL follows a JSON path hop by hop; a step into anything but a document gives NULL. */
  function Reach(r: Record, path: seq<string>): Stored
    decreases |path|
  {
    if path == [] then Null
    else if |path| == 1 then Get(r, path[0])
    else match Get(r, path[0]) case Sub(fields) => Reach(fields, path[1..]) case _ => Null
  }

  predicate DotFree(path: seq<string>) { forall i :: 0 <= i < |path| ==> '.' !in path[i] }

  /** A path whose lowered field MongoDB reads as a field name and by the same steps. */
  predicate PlainPath(path: seq<string>) { path != [] && DotFree(path) && !Dollar(path[0]) }

  predicate EqualsLiteral(x: Stored, v: Val) {
    match v
    case VNull => x == Null
    case VBool(b) => x == Flag(b)
    case VStr(s) => x == Text(s)
    case _ => false
  }

  /** One query operator against a field; order comparisons hold only within a type. */
  predicate OpHolds(e: Engine, ops: Doc, op: Field, x: Stored)
    decreases op.value, 0
  {
    match op.key
    case "$eq" => EqualsLiteral(x, op.value)
    case "$ne" => !EqualsLiteral(x, op.value)
    case "$gt" => x.Text? && op.value.VStr? && e.less(op.value.s, x.s)
    case "$gte" => x.Text? && op.value.VStr? && (e.less(op.value.s, x.s) || x.s == op.value.s)
    case "$lt" => x.Text? && op.value.VStr? && e.less(x.s, op.value.s)
    case "$lte" => x.Text? && op.value.VStr? && (e.less(x.s, op.value.s) || x.s == op.value.s)
    case "$in" => op.value.VArr? && exists i :: 0 <= i < |op.value.elems| && EqualsLiteral(x, op.value.elems[i])
    case "$regex" => x.Text? && op.value.VStr? && e.regex(op.value.s, Field("$options", VStr("i")) in ops, x.s)
    case "$options" => true
    case "$not" => op.value.VDoc? && !OpsHold(e, op.value.fields, x)
    case _ => false
  }

  predicate OpsHold(e: Engine, ops: Doc, x: Stored)
    decreases ops, 1
  {
    forall i :: 0 <= i < |ops| ==> OpHolds(e, ops, ops[i], x)
  }

  /** An aggregation expression: a string starting with `$` reads a field, `$ifNull` turns missing into null. */
  function ExprValue(v: Val, r: Record): Stored {
    match v
    case VNull => Null
    case VBool(b) => Flag(b)
    case VStr(s) => if Dollar(s) then Resolve(r, s[1..]) else Text(s)
    case VDoc(fs) => if |fs| == 1 && fs[0].key == "$ifNull" && fs[0].value.VArr? && |fs[0].value.elems| == 2
                     then ExprValue(fs[0].value.elems[0], r) else Null
    case VArr(_) => Null
  }

  predicate ExprHolds(v: Val, r: Record) {
    && v.VDoc? && |v.fields| == 1 && v.fields[0].key == "$ne" && v.fields[0].value.VArr?
    && |v.fields[0].value.elems| == 2
    && ExprValue(v.fields[0].value.elems[0], r) != ExprValue(v.fields[0].value.elems[1], r)
  }

  predicate FieldMatches(e: Engine, f: Field, r: Record)
    decreases f.value, 0
  {
    match f.key
    case "$and" => f.value.VArr? && forall i :: 0 <= i < |f.value.elems| ==> ValMatches(e, f.value.elems[i], r)
    case "$or" => f.value.VArr? && exists i :: 0 <= i < |f.value.elems| && ValMatches(e, f.value.elems[i], r)
    case "$nor" => f.value.VArr? && forall i :: 0 <= i < |f.value.elems| ==> !ValMatches(e, f.value.elems[i], r)
    case "$expr" => ExprHolds(f.value, r)
    case _ => !Dollar(f.key) && f.value.VDoc? && OpsHold(e, f.value.fields, Resolve(r, f.key))
  }

  predicate ValMatches(e: Engine, v: Val, r: Record)
    decreases v, 1
  {
    v.VDoc? && Matches(e, v.fields, r)
  }

  /** A query document matches when each of its fields does. */
  predicate Matches(e: Engine, d: Doc, r: Record)
    decreases d, 2
  {
    forall i :: 0 <= i < |d| ==> FieldMatches(e, d[i], r)
  }

  // ----- what the tree means in SQL -----

  predicate ValueOp(op: Op) {
    op in {Eq, Neq, Gt, Gte, Lt, Lte, In, Like, ILike, Match, IMatch}
  }

  /** A value comparison on text. */
  predicate TextHolds(e: Engine, c: Cond, s: string)
    requires c.Compare?
  {
    var t := c.value.text;
    match c.op
    case Eq => s == t
    case Neq => s != t
    case Gt => e.less(t, s)
    case Gte => s == t || e.less(t, s)
    case Lt => e.less(s, t)
    case Lte => s == t || e.less(s, t)
    case In => s in c.value.list
    case Like => L.Like(t, FoldFor(e, false), s)
    case ILike => L.Like(t, FoldFor(e, true), s)
    case Match => e.regex(t, false, s)
    case IMatch => e.regex(t, true, s)
    case _ => false
  }

  /** The truth of a positive comparison on a row: NULL makes a value comparison unknown. */
  function SqlLeaf(e: Engine, r: Record, c: Cond): Truth {
    if !c.Compare? then Unknown
    else
      var x := Reach(r, c.path);
      if c.op == Is then
        FromBool(match c.value.text
          case "not_null" => x != Null
          case "true" => x == Flag(true)
          case "false" => x == Flag(false)
          case _ => x == Null)
      else if c.op == IsDistinct then FromBool(x != Text(c.value.text))
      else if !x.Text? then Unknown
      else FromBool(TextHolds(e, c, x.s))
  }

  function Sql(e: Engine, r: Record, c: Cond): Truth {
    Eval(c, leaf => SqlLeaf(e, r, leaf))
  }

  /**
  The trees and rows whose lowering is read here: non-empty groups, plain field names, no full text, no quantifier, no
  newline under LIKE, and no literal that the aggregation language would read as a field reference.
  */
  predicate Supported(c: Cond, r: Record) {
    match c
    case And(kids) => kids != [] && forall i :: 0 <= i < |kids| ==> Supported(kids[i], r)
    case Or(kids) => kids != [] && forall i :: 0 <= i < |kids| ==> Supported(kids[i], r)
    case Not(kid) => Supported(kid, r)
    case EmbedPredicate(_, _) => false
    case Compare(path, _, op, value, quant, _, _, _) =>
      var x := Reach(r, path);
      && quant == QNone && PlainPath(path) && op != Fts && !Unsupported(op)
      && (op == IsDistinct ==> !Dollar(value.text))
      && ((op == Like || op == ILike) && x.Text? ==> '\n' !in x.s)
  }

  /** Every value comparison finds text. */
  predicate FindsText(c: Cond, r: Record) {
    match c
    case And(kids) => forall i :: 0 <= i < |kids| ==> FindsText(kids[i], r)
    case Or(kids) => forall i :: 0 <= i < |kids| ==> FindsText(kids[i], r)
    case Not(kid) => FindsText(kid, r)
    case EmbedPredicate(_, _) => true
    case Compare(path, _, op, _, _, _, _, _) => ValueOp(op) ==> Reach(r, path).Text?
  }

  // ----- the lowered field is the path -----

  lemma DottedHead(path: seq<string>)
    requires |path| > 1 && '.' !in path[0]
    ensures var f := Dotted(path); var i := S.Index(f, '.');
            i == |path[0]| && i < |f| && f[..i] == path[0] && f[i + 1..] == Dotted(path[1..])
  {
    var f := path[0] + ['.'] + Dotted(path[1..]);
    S.IndexAfter(path[0], '.', Dotted(path[1..]));
    assert Dotted(path) == f;
  }

  /** On every record MongoDB finds under the dotted name what SQL finds at the end of the path. */
  lemma {:induction false} DottedReaches(r: Record, path: seq<string>)
    requires path != [] && DotFree(path)
    ensures Resolve(r, Dotted(path)) == Reach(r, path)
    decreases |path|
  {
    if |path| == 1 {
      S.IndexAbsent(path[0], '.');
    } else {
      DottedHead(path);
      match Get(r, path[0])
      case Sub(fields) => DottedReaches(fields, path[1..]);
      case _ =>
    }
  }

  /** The record that holds a value at the end of a path and nothing else. */
  function Nest(path: seq<string>, v: Stored): (r: Record)
    requires path != []
    ensures Reach(r, path) == v
  {
    map[path[0] := if |path| == 1 then v else Sub(Nest(path[1..], v))]
  }

  lemma NestHolds(path: seq<string>, v: Stored, f: string)
    requires path != []
    ensures Get(Nest(path, v), f) ==
            if f != path[0] then Null else if |path| == 1 then v else Sub(Nest(path[1..], v))
  {
  }

  lemma ResolveStep(r: Record, f: string)
    ensures var i := S.Index(f, '.');
            if i == |f| then f[..i] == f && Resolve(r, f) == Get(r, f[..i])
            else match Get(r, f[..i])
              case Sub(fields) => Resolve(r, f) == Resolve(fields, f[i + 1..])
              case _ => Resolve(r, f) == Null
  {
    var i := S.Index(f, '.');
    assert i == |f| ==> f[..i] == f;
  }

  /** One step into such a record by a field name. */
  lemma NestStep(path: seq<string>, v: Stored, f: string)
    requires path != [] && !v.Sub? && v != Null && Resolve(Nest(path, v), f) == v
    ensures var i := S.Index(f, '.');
            && f[..i] == path[0] && '.' !in path[0] && (i < |f| <==> |path| > 1)
            && (i < |f| ==> Resolve(Nest(path[1..], v), f[i + 1..]) == v)
  {
    NoDotBefore(f);
    NestHolds(path, v, f[..S.Index(f, '.')]);
    ResolveStep(Nest(path, v), f);
  }

  lemma DotFreeMore(path: seq<string>)
    requires path != [] && '.' !in path[0] && DotFree(path[1..])
    ensures DotFree(path)
  {
    assert forall k :: 1 <= k < |path| ==> path[k] == path[1..][k - 1];
  }

  lemma DottedJoins(path: seq<string>, f: string, i: nat)
    requires |path| > 1 && i < |f| && f[i] == '.' && f[..i] == path[0] && f[i + 1..] == Dotted(path[1..])
    ensures f == Dotted(path)
  {
    assert f == f[..i] + "." + f[i + 1..];
  }

  /** Such a record is read back by no other field name. */
  lemma {:induction false} NestRead(path: seq<string>, v: Stored, f: string)
    requires path != [] && !v.Sub? && v != Null && Resolve(Nest(path, v), f) == v
    ensures DotFree(path) && f == Dotted(path)
    decreases |path|
  {
    var i := S.Index(f, '.');
    NestStep(path, v, f);
    if i < |f| {
      NestRead(path[1..], v, f[i + 1..]);
      DottedJoins(path, f, i);
    } else {
      assert f[..i] == f;
    }
    DotFreeMore(path);
  }

  lemma {:induction false} NoDotBefore(f: string)
    ensures '.' !in f[..S.Index(f, '.')]
  {
    if f != [] && f[0] != '.' {
      NoDotBefore(f[1..]);
      assert f[..S.Index(f, '.')] == [f[0]] + f[1..][..S.Index(f[1..], '.')];
    }
  }

  /** The two ways of reading agree on every record exactly for paths of names without dots. */
  lemma ReachesIffDotFree(path: seq<string>)
    requires path != []
    ensures (forall r :: Resolve(r, Dotted(path)) == Reach(r, path)) <==> DotFree(path)
  {
    if DotFree(path) {
      forall r ensures Resolve(r, Dotted(path)) == Reach(r, path) { DottedReaches(r, path); }
    } else {
      var r := Nest(path, Flag(true));
      if Resolve(r, Dotted(path)) == Reach(r, path) {
        NestRead(path, Flag(true), Dotted(path));
      }
      assert Resolve(r, Dotted(path)) != Reach(r, path);
    }
  }

  lemma DottedDollar(path: seq<string>)
    requires PlainPath(path)
    ensures !Dollar(Dotted(path))
  {
  }

  // ----- the two meanings agree -----

  lemma NegateMeansNot(e: Engine, d: Doc, r: Record)
    ensures Matches(e, Negate(d), r) <==> !Matches(e, d, r)
  {
    if |d| == 1 && d[0].value.VDoc? && !Dollar(d[0].key) {
      NegatedField(e, d[0], r);
      assert d == [d[0]];
    } else {
      NorMeansNot(e, d, r);
    }
  }

  lemma NegatedField(e: Engine, f: Field, r: Record)
    requires f.value.VDoc? && !Dollar(f.key)
    ensures Matches(e, FieldOp(f.key, "$not", f.value), r) <==> !Matches(e, [f], r)
  {
    FieldOpMeans(e, f.key, "$not", f.value, r);
    assert FieldMatches(e, f, r) <==> OpsHold(e, f.value.fields, Resolve(r, f.key));
    assert [f][0] == f;
  }

  lemma NorMeansNot(e: Engine, d: Doc, r: Record)
    ensures Matches(e, [Field("$nor", VArr([VDoc(d)]))], r) <==> !Matches(e, d, r)
  {
    var n := [Field("$nor", VArr([VDoc(d)]))];
    assert n[0].value.elems[0] == VDoc(d);
    assert ValMatches(e, n[0].value.elems[0], r) <==> Matches(e, d, r);
  }

  lemma FieldOpMeans(e: Engine, f: string, op: string, v: Val, r: Record)
    requires !Dollar(f)
    ensures Matches(e, FieldOp(f, op, v), r) <==> OpHolds(e, [Field(op, v)], Field(op, v), Resolve(r, f))
  {
    var d := FieldOp(f, op, v);
    assert d[0] == Field(f, VDoc([Field(op, v)]));
    assert d[0].value.fields[0] == Field(op, v);
  }

  lemma RegexDocMeans(e: Engine, f: string, pattern: string, ci: bool, r: Record)
    requires !Dollar(f) && Resolve(r, f).Text?
    ensures Matches(e, RegexDoc(f, pattern, ci), r) <==> e.regex(pattern, ci, Resolve(r, f).s)
  {
    var d := RegexDoc(f, pattern, ci);
    var ops := d[0].value.fields;
    assert ops[0] == Field("$regex", VStr(pattern));
    assert ci ==> ops[1] == Field("$options", VStr("i"));
    assert Field("$options", VStr("i")) in ops <==> ci;
    var x := Resolve(r, f);
    assert OpHolds(e, ops, ops[0], x) <==> e.regex(pattern, ci, x.s);
    assert ci ==> OpHolds(e, ops, ops[1], x);
    assert OpsHold(e, ops, x) <==> OpHolds(e, ops, ops[0], x);
    assert FieldMatches(e, d[0], r) <==> OpsHold(e, ops, x);
  }

  function DistinctLeaf(path: seq<string>, text: string): Cond {
    Compare(path, NoStep, IsDistinct, Ir.Text(text), QNone, false, FtsPlain, "")
  }

  lemma ExprArguments(e: Engine, c: Cond, r: Record)
    requires c.Compare? && c.op == IsDistinct
    ensures var d := ComparePositive(c);
            d.Ok? && (Matches(e, d.value, r) <==> Resolve(r, Dotted(c.path)) != ExprValue(VStr(c.value.text), r))
  {
    var d := ComparePositive(c).value;
    var f := Dotted(c.path);
    assert ("$" + f)[1..] == f;
    var args := d[0].value.fields[0].value.elems;
    assert args[0].fields[0].value.elems[0] == VStr("$" + f) && args[1] == VStr(c.value.text);
    assert ExprValue(args[0].fields[0].value.elems[0], r) == Resolve(r, f);
    assert ExprValue(args[0], r) == Resolve(r, f);
    assert FieldMatches(e, d[0], r) <==> ExprHolds(d[0].value, r);
  }

  /** One positive comparison: the document it lowers to matches exactly when it is true, and it is never unknown. */
  lemma LeafPreserved(e: Engine, c: Cond, r: Record)
    requires ReadsFragment(e) && c.Compare? && Supported(c, r) && FindsText(c, r)
    ensures ComparePositive(c).Ok?
    ensures SqlLeaf(e, r, c) == FromBool(Matches(e, ComparePositive(c).value, r))
  {
    var f, v := Dotted(c.path), VStr(c.value.text);
    var x := Reach(r, c.path);
    DottedReaches(r, c.path);
    DottedDollar(c.path);
    match c.op
    case Eq => FieldOpMeans(e, f, "$eq", v, r);
    case Neq => FieldOpMeans(e, f, "$ne", v, r);
    case Gt => FieldOpMeans(e, f, "$gt", v, r);
    case Gte => FieldOpMeans(e, f, "$gte", v, r);
    case Lt => FieldOpMeans(e, f, "$lt", v, r);
    case Lte => FieldOpMeans(e, f, "$lte", v, r);
    case In =>
      var l := VArr(Strings(c.value.list));
      FieldOpMeans(e, f, "$in", l, r);
      assert forall i :: 0 <= i < |c.value.list| ==> l.elems[i] == VStr(c.value.list[i]);
    case Is => IsPreserved(e, f, c.value.text, r);
    case Like =>
      L.RegexIsLike(c.value.text, FoldFor(e, false), x.s);
      RegexDocMeans(e, f, L.Regex(c.value.text), false, r);
    case ILike =>
      L.RegexIsLike(c.value.text, FoldFor(e, true), x.s);
      RegexDocMeans(e, f, L.Regex(c.value.text), true, r);
    case Match => RegexDocMeans(e, f, c.value.text, false, r);
    case IMatch => RegexDocMeans(e, f, c.value.text, true, r);
    case IsDistinct => ExprArguments(e, c, r);
  }

  lemma IsPreserved(e: Engine, f: string, state: string, r: Record)
    requires !Dollar(f)
    ensures Matches(e, LowerIs(f, state), r) <==>
            match state
            case "not_null" => Resolve(r, f) != Null
            case "true" => Resolve(r, f) == Flag(true)
            case "false" => Resolve(r, f) == Flag(false)
            case _ => Resolve(r, f) == Null
  {
    FieldOpMeans(e, f, "$ne", VNull, r);
    FieldOpMeans(e, f, "$eq", VBool(true), r);
    FieldOpMeans(e, f, "$eq", VBool(false), r);
    FieldOpMeans(e, f, "$eq", VNull, r);
  }

  /** On a null, missing or other field that is not text, a value comparison matches exactly if it is `neq`. */
  lemma NotTextPositive(e: Engine, c: Cond, r: Record)
    requires c.Compare? && ValueOp(c.op) && PlainPath(c.path) && !Reach(r, c.path).Text?
    ensures ComparePositive(c).Ok? && (Matches(e, ComparePositive(c).value, r) <==> c.op == Neq)
  {
    DottedReaches(r, c.path);
    DottedDollar(c.path);
    var f, v := Dotted(c.path), VStr(c.value.text);
    match c.op
    case Eq => FieldOpMeans(e, f, "$eq", v, r);
    case Neq => FieldOpMeans(e, f, "$ne", v, r);
    case Gt => FieldOpMeans(e, f, "$gt", v, r);
    case Gte => FieldOpMeans(e, f, "$gte", v, r);
    case Lt => FieldOpMeans(e, f, "$lt", v, r);
    case Lte => FieldOpMeans(e, f, "$lte", v, r);
    case In =>
      var l := VArr(Strings(c.value.list));
      FieldOpMeans(e, f, "$in", l, r);
      assert forall i :: 0 <= i < |c.value.list| ==> l.elems[i] == VStr(c.value.list[i]);
    case Like => RegexFindsNoText(e, f, L.Regex(c.value.text), false, r);
    case ILike => RegexFindsNoText(e, f, L.Regex(c.value.text), true, r);
    case Match => RegexFindsNoText(e, f, c.value.text, false, r);
    case IMatch => RegexFindsNoText(e, f, c.value.text, true, r);
  }

  lemma RegexFindsNoText(e: Engine, f: string, pattern: string, ci: bool, r: Record)
    requires !Dollar(f) && !Resolve(r, f).Text?
    ensures !Matches(e, RegexDoc(f, pattern, ci), r)
  {
    var d := RegexDoc(f, pattern, ci);
    var ops, x := d[0].value.fields, Resolve(r, f);
    assert ops[0] == Field("$regex", VStr(pattern));
    assert !OpHolds(e, ops, ops[0], x);
    assert FieldMatches(e, d[0], r) <==> OpsHold(e, ops, x);
  }

  // ----- what the lowered document reads, on every record -----

  /** MongoDB's two-valued reading of a positive comparison: where SQL is unknown, only `neq` holds. */
  function MongoLeaf(e: Engine, r: Record, c: Cond): Truth {
    if SqlLeaf(e, r, c) == Unknown then FromBool(c.Compare? && c.op == Neq) else SqlLeaf(e, r, c)
  }

  function Mongo(e: Engine, r: Record, c: Cond): Truth { Eval(c, leaf => MongoLeaf(e, r, leaf)) }

  lemma LeafReads(e: Engine, c: Cond, r: Record)
    requires ReadsFragment(e) && c.Compare? && Supported(c, r)
    ensures ComparePositive(c).Ok? && MongoLeaf(e, r, c) == FromBool(Matches(e, ComparePositive(c).value, r))
  {
    if FindsText(c, r) {
      LeafPreserved(e, c, r);
    } else {
      NotTextPositive(e, c, r);
    }
  }

  /** A group's members are lowered one by one. */
  lemma {:induction false} LowerAllItems(kids: seq<Cond>)
    requires forall i :: 0 <= i < |kids| ==> Lower(kids[i]).Ok?
    ensures LowerAll(kids).Ok? && |LowerAll(kids).value| == |kids|
    ensures forall i :: 0 <= i < |kids| ==> LowerAll(kids).value[i] == VDoc(Lower(kids[i]).value)
  {
    if kids != [] {
      var init, last := kids[..|kids| - 1], kids[|kids| - 1];
      forall i | 0 <= i < |init| ensures Lower(init[i]).Ok? { assert init[i] == kids[i]; }
      LowerAllItems(init);
      var parts := LowerAll(init).value;
      var all := parts + [VDoc(Lower(last).value)];
      assert LowerAll(kids) == Ok(all);
      forall i | 0 <= i < |kids| ensures all[i] == VDoc(Lower(kids[i]).value) {
        if i < |init| {
          assert init[i] == kids[i];
        }
      }
    }
  }

  /** A group matches when all, or when one, of its members' documents do. */
  lemma GroupMeans(e: Engine, kids: seq<Cond>, r: Record)
    requires forall i :: 0 <= i < |kids| ==> Lower(kids[i]).Ok?
    ensures Lower(And(kids)).Ok? && Lower(Or(kids)).Ok?
    ensures Matches(e, Lower(And(kids)).value, r) <==>
            forall i :: 0 <= i < |kids| ==> Matches(e, Lower(kids[i]).value, r)
    ensures Matches(e, Lower(Or(kids)).value, r) <==>
            exists i :: 0 <= i < |kids| && Matches(e, Lower(kids[i]).value, r)
  {
    LowerAllItems(kids);
    var parts := LowerAll(kids).value;
    var all, any := Field("$and", VArr(parts)), Field("$or", VArr(parts));
    assert Lower(And(kids)).value == [all] && Lower(Or(kids)).value == [any];
    assert [all][0] == all && [any][0] == any;
    forall i | 0 <= i < |kids| ensures ValMatches(e, parts[i], r) <==> Matches(e, Lower(kids[i]).value, r) {
      assert parts[i] == VDoc(Lower(kids[i]).value);
    }
    assert FieldMatches(e, all, r) <==> forall i :: 0 <= i < |parts| ==> ValMatches(e, parts[i], r);
    assert FieldMatches(e, any, r) <==> exists i :: 0 <= i < |parts| && ValMatches(e, parts[i], r);
  }

  lemma GroupReads(e: Engine, kids: seq<Cond>, r: Record)
    requires forall i :: 0 <= i < |kids| ==>
               Lower(kids[i]).Ok? && Mongo(e, r, kids[i]) == FromBool(Matches(e, Lower(kids[i]).value, r))
    ensures Lower(And(kids)).Ok? && Mongo(e, r, And(kids)) == FromBool(Matches(e, Lower(And(kids)).value, r))
    ensures Lower(Or(kids)).Ok? && Mongo(e, r, Or(kids)) == FromBool(Matches(e, Lower(Or(kids)).value, r))
  {
    GroupMeans(e, kids, r);
  }

  lemma CompareEvaluates(e: Engine, r: Record, c: Cond)
    requires c.Compare?
    ensures var leaf := MongoLeaf(e, r, c.(negate := false));
            Mongo(e, r, c) == if c.negate then Not3(leaf) else leaf
  {
  }

  lemma CompareReads(e: Engine, c: Cond, r: Record)
    requires ReadsFragment(e) && c.Compare? && Supported(c, r)
    ensures Lower(c).Ok? && Mongo(e, r, c) == FromBool(Matches(e, Lower(c).value, r))
  {
    var p := c.(negate := false);
    CompareEvaluates(e, r, c);
    LeafReads(e, p, r);
    NegateMeansNot(e, ComparePositive(p).value, r);
  }

  /** The lowered query matches exactly the records of which the two-valued reading is true. */
  lemma {:induction false} LowerReads(e: Engine, c: Cond, r: Record)
    requires ReadsFragment(e) && Supported(c, r)
    ensures Lower(c).Ok? && Mongo(e, r, c) == FromBool(Matches(e, Lower(c).value, r))
    decreases c, 1
  {
    match c
    case And(kids) =>
      KidsRead(e, c, r);
      GroupReads(e, kids, r);
    case Or(kids) =>
      KidsRead(e, c, r);
      GroupReads(e, kids, r);
    case Not(kid) =>
      LowerReads(e, kid, r);
      NegateMeansNot(e, Lower(kid).value, r);
    case Compare(_, _, _, _, _, _, _, _) => CompareReads(e, c, r);
  }

  lemma {:induction false} KidsRead(e: Engine, c: Cond, r: Record)
    requires ReadsFragment(e) && (c.And? || c.Or?) && Supported(c, r)
    ensures forall i :: 0 <= i < |c.kids| ==>
              Lower(c.kids[i]).Ok? && Mongo(e, r, c.kids[i]) == FromBool(Matches(e, Lower(c.kids[i]).value, r))
    decreases c, 0
  {
    forall i | 0 <= i < |c.kids|
      ensures Lower(c.kids[i]).Ok? && Mongo(e, r, c.kids[i]) == FromBool(Matches(e, Lower(c.kids[i]).value, r))
    {
      LowerReads(e, c.kids[i], r);
    }
  }

  // ----- where that reading is SQL's -----

  /**
  Read for truth (`pos`), every value comparison that finds no text counts as false: it is not `neq` and under an even
  number of negations, or it is `neq` and under an odd number. Read for falsity it is the other way round.
  */
  predicate Settles(c: Cond, r: Record, pos: bool) {
    match c
    case And(kids) => forall i :: 0 <= i < |kids| ==> Settles(kids[i], r, pos)
    case Or(kids) => forall i :: 0 <= i < |kids| ==> Settles(kids[i], r, pos)
    case Not(kid) => Settles(kid, r, !pos)
    case EmbedPredicate(_, _) => false
    case Compare(path, _, op, _, _, negate, _, _) =>
      ValueOp(op) && !Reach(r, path).Text? ==> ((pos != negate) <==> op != Neq)
  }

  /** The same of every record: a condition on the tree alone. */
  predicate Polar(c: Cond, pos: bool) {
    match c
    case And(kids) => forall i :: 0 <= i < |kids| ==> Polar(kids[i], pos)
    case Or(kids) => forall i :: 0 <= i < |kids| ==> Polar(kids[i], pos)
    case Not(kid) => Polar(kid, !pos)
    case EmbedPredicate(_, _) => false
    case Compare(_, _, op, _, _, negate, _, _) => ValueOp(op) ==> ((pos != negate) <==> op != Neq)
  }

  lemma {:induction false} PolarSettles(c: Cond, r: Record, pos: bool)
    requires Polar(c, pos)
    ensures Settles(c, r, pos)
  {
    match c
    case And(kids) => forall i | 0 <= i < |kids| ensures Settles(kids[i], r, pos) { PolarSettles(kids[i], r, pos); }
    case Or(kids) => forall i | 0 <= i < |kids| ensures Settles(kids[i], r, pos) { PolarSettles(kids[i], r, pos); }
    case Not(kid) => PolarSettles(kid, r, !pos);
    case _ =>
  }

  lemma {:induction false} TextSettles(c: Cond, r: Record, pos: bool)
    requires Supported(c, r) && FindsText(c, r)
    ensures Settles(c, r, pos)
  {
    match c
    case And(kids) => forall i | 0 <= i < |kids| ensures Settles(kids[i], r, pos) { TextSettles(kids[i], r, pos); }
    case Or(kids) => forall i | 0 <= i < |kids| ensures Settles(kids[i], r, pos) { TextSettles(kids[i], r, pos); }
    case Not(kid) => TextSettles(kid, r, !pos);
    case _ =>
  }

  /** A settled tree reads as it does in SQL: unknown as false when read for truth, as true when read for falsity. */
  lemma {:induction false} SettledReads(e: Engine, c: Cond, r: Record, pos: bool)
    requires Supported(c, r) && Settles(c, r, pos)
    ensures Mongo(e, r, c) == FromBool(if pos then Sql(e, r, c) == True else Sql(e, r, c) != False)
  {
    match c
    case And(kids) =>
      forall i | 0 <= i < |kids|
        ensures var sql := Sql(e, r, kids[i]);
                Mongo(e, r, kids[i]) == FromBool(if pos then sql == True else sql != False)
      {
        SettledReads(e, kids[i], r, pos);
      }
    case Or(kids) =>
      forall i | 0 <= i < |kids|
        ensures var sql := Sql(e, r, kids[i]);
                Mongo(e, r, kids[i]) == FromBool(if pos then sql == True else sql != False)
      {
        SettledReads(e, kids[i], r, pos);
      }
    case Not(kid) => SettledReads(e, kid, r, !pos);
    case Compare(_, _, _, _, _, _, _, _) =>
  }

  /**
  On every record, null and missing fields included, a tree whose value comparisons all have positive polarity keeps
  exactly the records of which it is true; with negative polarity it keeps those of which it is not false.
  */
  lemma PolarTreesPreserved(e: Engine, c: Cond, r: Record, pos: bool)
    requires ReadsFragment(e) && Supported(c, r) && Polar(c, pos)
    ensures Lower(c).Ok?
    ensures Matches(e, Lower(c).value, r) <==> if pos then Sql(e, r, c) == True else Sql(e, r, c) != False
  {
    LowerReads(e, c, r);
    PolarSettles(c, r, pos);
    SettledReads(e, c, r, pos);
  }

  /** Where every value comparison finds text, whatever its polarity, the tree is never unknown and is preserved. */
  lemma LowerPreservesMeaning(e: Engine, c: Cond, r: Record)
    requires ReadsFragment(e) && Supported(c, r) && FindsText(c, r)
    ensures Lower(c).Ok? && Sql(e, r, c) == FromBool(Matches(e, Lower(c).value, r))
  {
    LowerReads(e, c, r);
    TextSettles(c, r, true);
    TextSettles(c, r, false);
    SettledReads(e, c, r, true);
    SettledReads(e, c, r, false);
  }

  // ----- exactly where the domain ends -----

  /** A lone comparison on a null or missing field is unknown in SQL, and kept exactly when its polarity is negative. */
  lemma NullFieldKeptIff(e: Engine, c: Cond, r: Record)
    requires c.Compare? && ValueOp(c.op) && PlainPath(c.path) && Reach(r, c.path) == Null
    ensures Sql(e, r, c) == Unknown
    ensures Lower(c).Ok? && (Matches(e, Lower(c).value, r) <==> !Polar(c, true))
  {
    NotTextPositive(e, c, r);
    NegateMeansNot(e, ComparePositive(c).value, r);
  }

  function Leaf(f: string, op: Op, text: string): Cond {
    Compare([f], NoStep, op, Ir.Text(text), QNone, false, FtsPlain, "")
  }

  /** A group's negation reaches its members: not.and(a.eq.1) keeps a record without `a`, of which it is unknown. */
  lemma NegatedGroupKeepsNull(e: Engine)
    requires ReadsFragment(e)
    ensures var c := Not(And([Leaf("a", Eq, "1")]));
            Sql(e, map[], c) == Unknown && Lower(c).Ok? && Matches(e, Lower(c).value, map[])
  {
    var kids := [Leaf("a", Eq, "1")];
    var c := Not(And(kids));
    assert forall i :: 0 <= i < |kids| ==> kids[i] == Leaf("a", Eq, "1");
    assert kids[0] == Leaf("a", Eq, "1");
    assert Eval(kids[0], leaf => SqlLeaf(e, map[], leaf)) == Unknown;
    assert Supported(And(kids), map[]) && Polar(And(kids), true) && Polar(c, false);
    PolarTreesPreserved(e, c, map[], false);
  }

  ghost predicate DistinctAgrees(e: Engine, path: seq<string>, text: string, r: Record) {
    var d := ComparePositive(DistinctLeaf(path, text));
    d.Ok? && (Matches(e, d.value, r) <==> Reach(r, path) != Text(text))
  }

  /** `isdistinct` is exact on every row exactly when its literal cannot be read as a field reference. */
  lemma DistinctExactIffPlainLiteral(e: Engine, path: seq<string>, text: string)
    requires PlainPath(path)
    ensures (forall r :: DistinctAgrees(e, path, text, r)) <==> !Dollar(text)
  {
    if !Dollar(text) {
      forall r ensures DistinctAgrees(e, path, text, r) {
        DottedReaches(r, path);
        ExprArguments(e, DistinctLeaf(path, text), r);
      }
    } else {
      var g := text[1..];
      var r := Nest(path, Text(if g == Dotted(path) then "" else text));
      DottedReaches(r, path);
      ExprArguments(e, DistinctLeaf(path, text), r);
      if g != Dotted(path) && Resolve(r, g) == Text(text) {
        NestRead(path, Text(text), g);
      }
      assert !DistinctAgrees(e, path, text, r);
    }
  }

  // ----- the words of a full-text search -----

  predicate Word(w: string) { w != [] && forall i :: 0 <= i < |w| ==> !S.Space(w[i]) }

  /** Words with white space before, between and after them. */
  function Laid(gaps: seq<string>, words: seq<string>): string
    requires |gaps| == |words| + 1
  {
    if words == [] then gaps[0]
    else Laid(gaps[..|words|], words[..|words| - 1]) + words[|words| - 1] + gaps[|words|]
  }

  lemma {:induction false} WordsBlank(s: string, gap: string)
    requires S.Blank(gap)
    ensures Words(s + gap) == Words(s)
  {
    if gap == [] {
      assert s + gap == s;
    } else {
      var all := s + gap;
      assert all[..|all| - 1] == s + gap[..|gap| - 1];
      WordsBlank(s, gap[..|gap| - 1]);
    }
  }

  lemma {:induction false} WordStartAfter(s: string, w: string)
    requires (s == [] || S.Space(s[|s| - 1])) && forall i :: 0 <= i < |w| ==> !S.Space(w[i])
    ensures WordStart(s + w) == |s|
  {
    if w == [] {
      assert s + w == s;
    } else {
      var all := s + w;
      assert all[..|all| - 1] == s + w[..|w| - 1];
      WordStartAfter(s, w[..|w| - 1]);
    }
  }

  lemma WordsWord(s: string, w: string)
    requires (s == [] || S.Space(s[|s| - 1])) && Word(w)
    ensures Words(s + w) == Words(s) + [w]
  {
    var all := s + w;
    WordStartAfter(s, w);
    assert all[..|s|] == s && all[|s|..] == w;
  }

  lemma WordsEnd(s: string, w: string, gap: string)
    requires (s == [] || S.Space(s[|s| - 1])) && Word(w) && S.Blank(gap)
    ensures Words(s + w + gap) == Words(s) + [w]
  {
    WordsWord(s, w);
    WordsBlank(s + w, gap);
  }

  ghost predicate Gapped(gaps: seq<string>, words: seq<string>) {
    && |gaps| == |words| + 1
    && (forall i :: 0 <= i < |gaps| ==> S.Blank(gaps[i]) && (0 < i < |words| ==> gaps[i] != []))
    && (forall i :: 0 <= i < |words| ==> Word(words[i]))
  }

  lemma GappedInit(gaps: seq<string>, words: seq<string>)
    requires Gapped(gaps, words) && words != []
    ensures Gapped(gaps[..|words|], words[..|words| - 1])
  {
  }

  lemma LaidEnd(gaps: seq<string>, words: seq<string>)
    requires Gapped(gaps, words) && (words == [] || gaps[|words|] != [])
    ensures var t := Laid(gaps, words); t == [] || S.Space(t[|t| - 1])
  {
  }

  /** The words of a text are the words in it, whatever white space stands around them. */
  lemma {:induction false} WordsLaid(gaps: seq<string>, words: seq<string>)
    requires Gapped(gaps, words)
    ensures Words(Laid(gaps, words)) == words
  {
    if words == [] {
      WordsBlank("", gaps[0]);
      assert "" + gaps[0] == gaps[0];
    } else {
      var k := |words| - 1;
      var before := Laid(gaps[..k + 1], words[..k]);
      GappedInit(gaps, words);
      WordsLaid(gaps[..k + 1], words[..k]);
      LaidEnd(gaps[..k + 1], words[..k]);
      WordsEnd(before, words[k], gaps[k + 1]);
    }
  }

  lemma {:induction false} SpacedAppend(words: seq<string>, w: string)
    ensures Spaced(words + [w]) == if words == [] then w else Spaced(words) + " " + w
  {
    if words != [] {
      assert (words + [w])[1..] == words[1..] + [w];
      SpacedAppend(words[1..], w);
    }
  }

  /** The search text carries the words in order, a phrase between quotes. */
  lemma {:induction false} SpacedKeepsWords(words: seq<string>)
    requires forall i :: 0 <= i < |words| ==> Word(words[i])
    ensures Words(Spaced(words)) == words
  {
    if words != [] {
      var k := |words| - 1;
      var init, w := words[..k], words[k];
      assert init + [w] == words;
      SpacedAppend(init, w);
      SpacedKeepsWords(init);
      if init == [] {
        WordsWord("", w);
        assert "" + w == w;
      } else {
        WordsBlank(Spaced(init), " ");
        WordsWord(Spaced(init) + " ", w);
      }
    }
  }

  lemma FtsSearchKeepsWords(variant: FtsVariant, gaps: seq<string>, words: seq<string>)
    requires Gapped(gaps, words)
    ensures var search := FtsSearch(variant, Laid(gaps, words));
            var bare := if variant == FtsPhrase && |search| > 1 then search[1..|search| - 1] else search;
            && Words(bare) == words
            && (variant == FtsPhrase ==> |search| > 1 && search[0] == '"' && search[|search| - 1] == '"')
  {
    WordsLaid(gaps, words);
    SpacedKeepsWords(words);
    var search := FtsSearch(variant, Laid(gaps, words));
    if variant == FtsPhrase {
      assert search[1..|search| - 1] == Spaced(words);
    }
  }
}
