/**
The filter grammar (ir/parse.go): one comparison, and logical groups of them nested to any depth;
with the canonical printer that the parser undoes.
*/
module FilterGrammar {
  import opened Wrappers
  import opened Strings
  import opened Ir
  import opened Lexer
  import P = ColumnPath

  type Parsed<T> = Result<T, string>

  // ----- operators -----

  function OpToken(op: Op): string {
    match op
    case Eq => "eq" case Neq => "neq" case Gt => "gt" case Gte => "gte" case Lt => "lt" case Lte => "lte"
    case Like => "like" case ILike => "ilike" case Match => "match" case IMatch => "imatch"
    case In => "in" case Is => "is" case IsDistinct => "isdistinct" case Fts => "fts"
    case Contains => "cs" case Contained => "cd" case Overlap => "ov"
    case RangeSL => "sl" case RangeSR => "sr" case RangeNXR => "nxr" case RangeNXL => "nxl" case RangeAdj => "adj"
  }

  function OpFromToken(tok: string): Option<Op> {
    match tok
    case "eq" => Some(Eq) case "neq" => Some(Neq) case "gt" => Some(Gt) case "gte" => Some(Gte)
    case "lt" => Some(Lt) case "lte" => Some(Lte) case "like" => Some(Like) case "ilike" => Some(ILike)
    case "match" => Some(Match) case "imatch" => Some(IMatch) case "in" => Some(In) case "is" => Some(Is)
    case "isdistinct" => Some(IsDistinct) case "cs" => Some(Contains) case "cd" => Some(Contained)
    case "ov" => Some(Overlap) case "sl" => Some(RangeSL) case "sr" => Some(RangeSR)
    case "nxr" => Some(RangeNXR) case "nxl" => Some(RangeNXL) case "adj" => Some(RangeAdj)
    case _ => None
  }

  function FtsToken(v: FtsVariant): string {
    match v
    case FtsPlain => "fts" case FtsPlainText => "plfts" case FtsPhrase => "phfts" case FtsWeb => "wfts"
  }

  function FtsFromToken(tok: string): Option<FtsVariant> {
    match tok
    case "fts" => Some(FtsPlain) case "plfts" => Some(FtsPlainText)
    case "phfts" => Some(FtsPhrase) case "wfts" => Some(FtsWeb)
    case _ => None
  }

  predicate Quantifiable(op: Op) {
    op in {Eq, Gt, Gte, Lt, Lte, Like, ILike, Match, IMatch}
  }

  // ----- one comparison -----

  function Wildcards(s: string): (r: string)
    ensures |r| == |s|
  {
    seq(|s|, i requires 0 <= i < |s| => if s[i] == '*' then '%' else s[i])
  }

  function WildcardsIn(l: seq<string>): (r: seq<string>)
    ensures |r| == |l|
  {
    seq(|l|, i requires 0 <= i < |l| => Wildcards(l[i]))
  }

  predicate IsState(s: string) { s in ["null", "true", "false", "unknown", "not_null"] }

  /** An operator token and its parenthesized argument, if it carries one. */
  function OperatorOf(tok: string): Parsed<(string, Option<string>)> {
    var i := Index(tok, '(');
    if i == |tok| then Ok((tok, None))
    else if tok[|tok| - 1] != ')' then Err("malformed argument in operator: " + tok)
    else Ok((tok[..i], Some(tok[i + 1..|tok| - 1])))
  }

  function QuantOf(paren: Option<string>): Parsed<Quant> {
    match paren
    case None => Ok(QNone)
    case Some("any") => Ok(QAny)
    case Some("all") => Ok(QAll)
    case Some(other) => Err("unknown quantifier: " + other)
  }

  function ValueOf(op: Op, quant: Quant, operand: string): Parsed<Value> {
    if quant != QNone then
      var l := ListOf(operand, '{', '}');
      if l.Err? then
        Err(if l.error.NoValue? then "any/all list must have at least one value" else "any/all expects a {…} list")
      else Ok(List(if op == Like || op == ILike then WildcardsIn(l.value) else l.value))
    else match op
      case In =>
        var l := ListOf(operand, '(', ')');
        if l.Err? then
          Err(if l.error.NoValue? then "in. expects at least one value" else "in. expects a parenthesized list")
        else Ok(List(l.value))
      case Is => if IsState(operand) then Ok(Text(operand)) else Err("is. expects null|true|false|unknown|not_null")
      case Like => Ok(Text(Wildcards(operand)))
      case ILike => Ok(Text(Wildcards(operand)))
      case _ => Ok(Text(operand))
  }

  /** What an operator and its operand say about a column. */
  function OperationOf(path: seq<string>, last: JsonStep, negate: bool, tok: string, operand: string): Parsed<Cond> {
    var (base, paren) :- OperatorOf(tok);
    var fts := FtsFromToken(base);
    if fts.Some? then
      Ok(Compare(path, last, Fts, Text(operand), QNone, negate, fts.value, if paren.Some? then paren.value else ""))
    else
      var quant :- QuantOf(paren);
      var op := OpFromToken(base);
      if op.None? then Err("unknown operator: " + base)
      else if quant != QNone && !Quantifiable(op.value) then
        Err("quantifier any/all is not valid for operator: " + base)
      else
        var value :- ValueOf(op.value, quant, operand);
        Ok(Compare(path, last, op.value, value, quant, negate, FtsPlain, ""))
  }

  function CompareOf(path: seq<string>, last: JsonStep, raw: string): Parsed<Cond> {
    var (negate, op, operand) :- CutOperation(raw);
    OperationOf(path, last, negate, op, operand)
  }

  /** Whether the operation is negated, its operator and its operand. */
  function CutOperation(raw: string): Parsed<(bool, string, string)> {
    var negate := "not." <= raw;
    var rest := if negate then raw[4..] else raw;
    var d := Index(rest, '.');
    if d == |rest| then Err("filter must be operator.value: " + rest) else Ok((negate, rest[..d], rest[d + 1..]))
  }

  // ----- logical groups -----

  predicate Nested(p: string) {
    "and(" <= p || "or(" <= p || "not.and(" <= p || "not.or(" <= p
  }

  function PathMessage(e: P.Error): string {
    if e.EmptyReference? then "empty column reference" else "empty hop in column path"
  }

  function Connect(op: string, kids: seq<Cond>): Cond { if op == "or" then Or(kids) else And(kids) }

  /** The value of an and= or or= parameter. */
  function LogicalOf(op: string, raw: string): Parsed<Cond>
    decreases |raw|, 0, 0
  {
    var negate := "not." <= raw;
    var body := Trim(if negate then raw[4..] else raw);
    if |body| < 2 || body[0] != '(' || body[|body| - 1] != ')' then Err("malformed logical operator: " + op)
    else
      var inner := body[1..|body| - 1];
      var kids :- KidsOf(Split(inner, TOP), |inner|);
      Ok(if negate then Not(Connect(op, kids)) else Connect(op, kids))
  }

  function KidsOf(parts: seq<string>, n: nat): Parsed<seq<Cond>>
    requires forall i :: 0 <= i < |parts| ==> |parts[i]| <= n
    decreases n, 1, |parts|
  {
    if parts == [] then Ok([])
    else
      var k := |parts| - 1;
      var rest :- KidsOf(parts[..k], n);
      var kid :- KidOf(parts[k], n);
      Ok(rest + [kid])
  }

  function KidOf(part: string, n: nat): Parsed<Cond>
    requires |part| <= n
    decreases n, 0, 0
  {
    var p := Trim(part);
    if Nested(p) then
      var node :- LogicalOf(if "or(" <= p || "not.or(" <= p then "or" else "and", p[Index(p, '(')..]);
      Ok(if "not." <= p then Not(node) else node)
    else
      var i := CutAt(p, '.', Plain);
      if i == |p| then Err("malformed predicate in logical: " + p)
      else
        var path := P.PathOf(p[..i]);
        if path.Err? then Err(PathMessage(path.error)) else CompareOf(path.value.0, path.value.1, p[i + 1..])
  }

  /** The source's recursion with its appending loop builds the same tree. */
  method ParseLogical(op: string, raw: string) returns (r: Parsed<Cond>)
    ensures r == LogicalOf(op, raw)
    decreases |raw|, 0
  {
    var negate := "not." <= raw;
    var body := Trim(if negate then raw[4..] else raw);
    if |body| < 2 || body[0] != '(' || body[|body| - 1] != ')' {
      return Err("malformed logical operator: " + op);
    }
    var inner := body[1..|body| - 1];
    var parts := SplitTopLevel(inner);
    var kids := ParseKids(parts, |inner|);
    if kids.Err? {
      return Err(kids.error);
    }
    return Ok(if negate then Not(Connect(op, kids.value)) else Connect(op, kids.value));
  }

  method ParseKids(parts: seq<string>, ghost n: nat) returns (r: Parsed<seq<Cond>>)
    requires forall i :: 0 <= i < |parts| ==> |parts[i]| <= n
    ensures r == KidsOf(parts, n)
    decreases n, 1
  {
    var kids: seq<Cond> := [];
    for j := 0 to |parts|
      invariant KidsOf(parts[..j], n) == Ok(kids)
    {
      assert parts[..j + 1][..j] == parts[..j];
      var kid := ParseKid(parts[j], n);
      if kid.Err? {
        KidsFail(parts, j + 1, n);
        return Err(kid.error);
      }
      kids := kids + [kid.value];
    }
    assert parts[..|parts|] == parts;
    return Ok(kids);
  }

  lemma {:induction false} KidsFail(parts: seq<string>, j: nat, n: nat)
    requires forall i :: 0 <= i < |parts| ==> |parts[i]| <= n
    requires j <= |parts| && KidsOf(parts[..j], n).Err?
    ensures KidsOf(parts, n) == KidsOf(parts[..j], n)
    decreases |parts|
  {
    if j == |parts| {
      assert parts[..j] == parts;
    } else {
      assert parts[..|parts| - 1][..j] == parts[..j];
      KidsFail(parts[..|parts| - 1], j, n);
    }
  }

  method ParseKid(part: string, ghost n: nat) returns (r: Parsed<Cond>)
    requires |part| <= n
    ensures r == KidOf(part, n)
    decreases n, 0
  {
    var p := Trim(part);
    if Nested(p) {
      var node := ParseLogical(if "or(" <= p || "not.or(" <= p then "or" else "and", p[Index(p, '(')..]);
      if node.Err? {
        return node;
      }
      return Ok(if "not." <= p then Not(node.value) else node.value);
    }
    var col, rest, ok := CutIdentAware(p, '.');
    if !ok {
      return Err("malformed predicate in logical: " + p);
    }
    var path := P.ParsePath(col);
    if path.Err? {
      return Err(PathMessage(path.error));
    }
    return CompareOf(path.value.0, path.value.1, rest);
  }

  // ----- printing -----

  /** Text a printed leaf can end with: solid, and not ending in white space that trimming would take. */
  predicate GoodOperand(s: string) { Solid(s) && (s == [] || !Space(s[|s| - 1])) }

  /** A column name that can start or continue a condition as it is. */
  predicate BareName(s: string) { s != "" && P.BareHop(s) && P.Neutral(s) && !Space(s[0]) }

  /** Inside quotes a backslash would take the next character with it. */
  predicate GoodName(s: string) { s != "" && ('\\' !in s || BareName(s)) }

  /** The names a client of this style leaves bare. */
  function Bare(style: Style): Style { (s: string) => BareName(s) && (style(s) || '\\' in s) }

  /** The comparisons the grammar can spell. */
  predicate GoodLeaf(c: Cond) {
    && c.Compare? && c.path != [] && (|c.path| == 1 <==> c.last == NoStep)
    && (forall i :: 0 <= i < |c.path| ==> GoodName(c.path[i]))
    && if c.op == Fts then
         && c.quant == QNone && c.value == Text(c.value.text) && GoodOperand(c.value.text)
         && '.' !in c.config && Run(c.config, Scan(1, Plain)) == Some(Scan(1, Plain))
       else
         && c.fts == FtsPlain && c.config == ""
         && if c.quant != QNone then
              && Quantifiable(c.op) && c.value == List(c.value.list) && c.value.list != []
              && (c.op == Like || c.op == ILike ==> forall i :: 0 <= i < |c.value.list| ==> '*' !in c.value.list[i])
            else if c.op == In then c.value == List(c.value.list) && c.value.list != []
            else
              && c.value == Text(c.value.text)
              && (if c.op == Is then c.value.text in ["null", "true", "false", "unknown", "not_null"]
                  else GoodOperand(c.value.text))
              && (c.op == Like || c.op == ILike ==> '*' !in c.value.text)
  }

  function PrintOperator(c: Cond): string
    requires c.Compare?
  {
    if c.op == Fts then FtsToken(c.fts) + if c.config == "" then "" else "(" + c.config + ")"
    else OpToken(c.op) + match c.quant case QNone => "" case QAny => "(any)" case QAll => "(all)"
  }

  function Starred(s: string): (r: string)
    ensures |r| == |s|
  {
    seq(|s|, i requires 0 <= i < |s| => if s[i] == '%' then '*' else s[i])
  }

  /** A pattern may be sent with `*`, which needs no escaping in a URL, for each `%`. */
  function PatternOf(style: Style, op: Op, s: string): string {
    if (op == Like || op == ILike) && style(s) then Starred(s) else s
  }

  function PatternsOf(style: Style, op: Op, l: seq<string>): (r: seq<string>)
    ensures |r| == |l|
  {
    seq(|l|, i requires 0 <= i < |l| => PatternOf(style, op, l[i]))
  }

  function PrintOperand(style: Style, c: Cond): string
    requires c.Compare?
  {
    if c.op != Fts && c.quant != QNone then PrintList(style, PatternsOf(style, c.op, c.value.list), '{', '}')
    else if c.op == In then PrintList(style, c.value.list, '(', ')')
    else PatternOf(style, c.op, c.value.text)
  }

  function PrintOperation(style: Style, c: Cond): string
    requires c.Compare?
  {
    Negation(c.negate) + (PrintOperator(c) + "." + PrintOperand(style, c))
  }

  function PrintLeaf(style: Style, c: Cond): string
    requires c.Compare? && c.path != []
  {
    P.PrintPath(Bare(style), c.path, c.last) + ("." + PrintOperation(style, c))
  }

  predicate Letters(t: string) { forall i :: 0 <= i < |t| ==> 'a' <= t[i] <= 'z' }

  /** The text starts like no keyword: not, and, or. */
  predicate Distinct(t: string) {
    |t| >= 2 && (t[0], t[1]) != ('n', 'o') && (t[0], t[1]) != ('a', 'n') && (t[0], t[1]) != ('o', 'r')
  }

  lemma TokenFacts(op: Op)
    requires op != Fts
    ensures var t := OpToken(op);
            && Letters(t) && Distinct(t)
            && FtsFromToken(t) == None && OpFromToken(t) == Some(op)
  {
  }

  lemma FtsTokenFacts(v: FtsVariant)
    ensures var t := FtsToken(v);
            Letters(t) && Distinct(t) && FtsFromToken(t) == Some(v)
  {
  }

  function Token(c: Cond): string
    requires c.Compare?
  {
    if c.op == Fts then FtsToken(c.fts) else OpToken(c.op)
  }

  function Argument(c: Cond): Option<string>
    requires c.Compare?
  {
    if c.op == Fts then (if c.config == "" then None else Some(c.config))
    else match c.quant case QNone => None case QAny => Some("any") case QAll => Some("all")
  }

  lemma TokenOf(c: Cond)
    requires GoodLeaf(c)
    ensures var t := Token(c); Letters(t) && Distinct(t)
    ensures PrintOperator(c) == Token(c) + if Argument(c).None? then "" else "(" + Argument(c).value + ")"
    ensures Argument(c).Some? ==>
              '.' !in Argument(c).value && Run(Argument(c).value, Scan(1, Plain)) == Some(Scan(1, Plain))
  {
    if c.op == Fts {
      FtsTokenFacts(c.fts);
    } else {
      TokenFacts(c.op);
      if c.quant == QAny {
        RunLetters("any", "", 1);
      } else if c.quant == QAll {
        RunLetters("all", "", 1);
      }
    }
  }

  lemma {:induction false} RunLetters(t: string, after: string, depth: nat)
    requires Letters(t)
    ensures Run(t + after, Scan(depth, Plain)) == Run(after, Scan(depth, Plain))
    ensures Run(t, Scan(depth, Plain)) == Some(Scan(depth, Plain))
  {
    if t == [] {
      assert t + after == after;
    } else {
      assert (t + after)[1..] == t[1..] + after;
      RunLetters(t[1..], after, depth);
    }
  }

  lemma OperatorWithArgument(t: string, x: string)
    requires Letters(t) && '.' !in x
    ensures OperatorOf(t + "(" + x + ")") == Ok((t, Some(x))) && '.' !in t + "(" + x + ")"
  {
    var o := t + "(" + x + ")";
    assert o == t + ['('] + (x + ")");
    IndexAfter(t, '(', x + ")");
    assert o[..|t|] == t && o[|t| + 1..|o| - 1] == x;
  }

  lemma OperatorReads(t: string, argument: Option<string>)
    requires Letters(t) && (argument.Some? ==> '.' !in argument.value)
    ensures var o := t + if argument.None? then "" else "(" + argument.value + ")";
            OperatorOf(o) == Ok((t, argument)) && '.' !in o
  {
    if argument.None? {
      assert t + "" == t;
      IndexAbsent(t, '(');
    } else {
      OperatorWithArgument(t, argument.value);
      assert t + "(" + argument.value + ")" == t + ("(" + argument.value + ")");
    }
  }

  /** The operator of a good leaf is read back as its token and argument, and has no dot of its own. */
  lemma OperatorParses(c: Cond)
    requires GoodLeaf(c)
    ensures OperatorOf(PrintOperator(c)) == Ok((Token(c), Argument(c)))
    ensures '.' !in PrintOperator(c)
  {
    TokenOf(c);
    OperatorReads(Token(c), Argument(c));
  }

  lemma PatternReads(style: Style, op: Op, s: string)
    requires (op == Like || op == ILike) && '*' !in s
    ensures Wildcards(PatternOf(style, op, s)) == s
  {
  }

  lemma PatternsRead(style: Style, op: Op, list: seq<string>)
    requires (op == Like || op == ILike) && forall i :: 0 <= i < |list| ==> '*' !in list[i]
    ensures WildcardsIn(PatternsOf(style, op, list)) == list
  {
    forall i | 0 <= i < |list| ensures Wildcards(PatternOf(style, op, list[i])) == list[i] {
      PatternReads(style, op, list[i]);
    }
  }

  lemma NoPatterns(style: Style, op: Op, list: seq<string>)
    requires op != Like && op != ILike
    ensures PatternsOf(style, op, list) == list
  {
  }

  lemma QuantifiedParses(style: Style, op: Op, quant: Quant, list: seq<string>)
    requires quant != QNone && list != []
    requires op == Like || op == ILike ==> forall i :: 0 <= i < |list| ==> '*' !in list[i]
    ensures ValueOf(op, quant, PrintList(style, PatternsOf(style, op, list), '{', '}')) == Ok(List(list))
  {
    ListRoundTrip(style, PatternsOf(style, op, list), '{', '}');
    if op == Like || op == ILike {
      PatternsRead(style, op, list);
    } else {
      NoPatterns(style, op, list);
    }
  }

  lemma InParses(style: Style, list: seq<string>)
    requires list != []
    ensures ValueOf(In, QNone, PrintList(style, list, '(', ')')) == Ok(List(list))
  {
    ListRoundTrip(style, list, '(', ')');
  }

  lemma ValueParses(style: Style, c: Cond)
    requires GoodLeaf(c) && c.op != Fts
    ensures ValueOf(c.op, c.quant, PrintOperand(style, c)) == Ok(c.value)
  {
    if c.quant != QNone {
      QuantifiedParses(style, c.op, c.quant, c.value.list);
    } else if c.op == In {
      InParses(style, c.value.list);
    } else if c.op == Like || c.op == ILike {
      PatternReads(style, c.op, c.value.text);
    }
  }

  lemma FtsParses(style: Style, c: Cond)
    requires GoodLeaf(c) && c.op == Fts
    ensures OperationOf(c.path, c.last, c.negate, PrintOperator(c), PrintOperand(style, c)) == Ok(c)
  {
    OperatorParses(c);
    FtsTokenFacts(c.fts);
  }

  lemma OperationParses(style: Style, c: Cond)
    requires GoodLeaf(c)
    ensures OperationOf(c.path, c.last, c.negate, PrintOperator(c), PrintOperand(style, c)) == Ok(c)
  {
    if c.op == Fts {
      FtsParses(style, c);
    } else {
      OperatorParses(c);
      TokenFacts(c.op);
      ValueParses(style, c);
      assert QuantOf(Argument(c)) == Ok(c.quant);
    }
  }

  lemma CompareSplits(negate: bool, o: string, x: string)
    requires |o| >= 2 && (o[0] != 'n' || o[1] != 'o') && '.' !in o
    ensures CutOperation(Negation(negate) + (o + "." + x)) == Ok((negate, o, x))
  {
    var rest := o + "." + x;
    OperatorCut(o, x);
    assert rest[0] == o[0] && rest[1] == o[1];
    NegationRead(negate, rest);
  }

  lemma NegationRead(negate: bool, rest: string)
    requires |rest| >= 2 && (rest[0] != 'n' || rest[1] != 'o')
    ensures var raw := Negation(negate) + rest;
            ("not." <= raw) == negate && (if negate then raw[4..] else raw) == rest
  {
    if negate {
      assert ("not." + rest)[4..] == rest;
    } else {
      assert "" + rest == rest;
    }
  }

  lemma OperatorCut(o: string, x: string)
    requires '.' !in o
    ensures var rest := o + "." + x;
            Index(rest, '.') == |o| && rest[..|o|] == o && rest[|o| + 1..] == x
  {
    IndexAfter(o, '.', x);
  }

  /** The text after a printed column is read back as the comparison it came from. */
  lemma CompareRoundTrip(style: Style, c: Cond)
    requires GoodLeaf(c)
    ensures CompareOf(c.path, c.last, PrintOperation(style, c)) == Ok(c)
  {
    var o := PrintOperator(c);
    TokenOf(c);
    OperatorParses(c);
    assert o[0] == Token(c)[0] && o[1] == Token(c)[1];
    CompareSplits(c.negate, o, PrintOperand(style, c));
    OperationParses(style, c);
  }

  // ----- a printed leaf survives splitting and trimming -----

  lemma OperandSolid(style: Style, c: Cond)
    requires GoodLeaf(c)
    ensures Solid(PrintOperand(style, c))
    ensures var x := PrintOperand(style, c); x == [] || !Space(x[|x| - 1])
  {
    if c.op != Fts && c.quant != QNone {
      ListRoundTrip(style, PatternsOf(style, c.op, c.value.list), '{', '}');
    } else if c.op == In {
      ListRoundTrip(style, c.value.list, '(', ')');
    } else if c.op == Is {
      StateSolid(c.value.text);
    } else {
      StarredGood(c.value.text);
    }
  }

  lemma {:induction false} RunStarred(s: string, st: Scan)
    ensures Run(Starred(s), st) == Run(s, st)
  {
    if s != [] {
      assert Starred(s)[1..] == Starred(s[1..]);
      RunStarred(s[1..], Next(st, s[0]));
    }
  }

  lemma StarredGood(s: string)
    requires GoodOperand(s)
    ensures GoodOperand(Starred(s))
  {
    RunStarred(s, TOP);
  }

  lemma StateSolid(s: string)
    requires IsState(s)
    ensures GoodOperand(s)
  {
    if s == "not_null" {
      NotNullSolid();
    } else {
      RunLetters(s, "", 0);
    }
  }

  lemma NotNullSolid()
    ensures Run("not_null", TOP) == Some(TOP)
  {
    RunLetters("not", "_null", 0);
    assert "not" + "_null" == "not_null" && "_null"[1..] == "null";
    RunLetters("null", "", 0);
  }

  lemma RunArgument(x: string, after: string)
    requires Run(x, Scan(1, Plain)) == Some(Scan(1, Plain))
    ensures Run("(" + (x + (")" + after)), TOP) == Run(after, TOP)
  {
    var tail := x + (")" + after);
    assert ("(" + tail)[1..] == tail;
    RunAppend(x, ")" + after, Scan(1, Plain));
    assert (")" + after)[1..] == after;
  }

  lemma RunTokenArgument(t: string, x: string, after: string)
    requires Letters(t) && Run(x, Scan(1, Plain)) == Some(Scan(1, Plain))
    ensures Run(t + ("(" + (x + (")" + after))), TOP) == Run(after, TOP)
  {
    RunLetters(t, "(" + (x + (")" + after)), 0);
    RunArgument(x, after);
  }

  lemma Parenthesized(t: string, x: string, after: string)
    ensures t + ("(" + x + ")") + after == t + ("(" + (x + (")" + after)))
  {
  }

  lemma RunOperator(c: Cond, after: string)
    requires GoodLeaf(c)
    ensures Run(PrintOperator(c) + after, TOP) == Run(after, TOP)
  {
    TokenOf(c);
    var t := Token(c);
    if Argument(c).None? {
      assert PrintOperator(c) + after == t + after;
      RunLetters(t, after, 0);
    } else {
      var x := Argument(c).value;
      Parenthesized(t, x, after);
      RunTokenArgument(t, x, after);
    }
  }

  lemma RunDot(after: string)
    ensures Run("." + after, TOP) == Run(after, TOP)
  {
    assert ("." + after)[1..] == after;
  }

  function Negation(negate: bool): string { if negate then "not." else "" }

  lemma NegationSolid(negate: bool, rest: string)
    requires Solid(rest)
    ensures Solid(Negation(negate) + rest)
  {
    var all := Negation(negate) + rest;
    if negate {
      assert all == "not" + ("." + rest);
      RunLetters("not", "." + rest, 0);
      RunDot(rest);
    } else {
      assert all == rest;
    }
  }

  lemma OperationSolid(style: Style, c: Cond)
    requires GoodLeaf(c)
    ensures Solid(PrintOperation(style, c))
  {
    var x := PrintOperand(style, c);
    OperandSolid(style, c);
    RunOperator(c, "." + x);
    OperationTextSolid(c.negate, PrintOperator(c), x);
  }

  lemma OperationTextSolid(negate: bool, o: string, x: string)
    requires Solid(x) && Run(o + ("." + x), TOP) == Run("." + x, TOP)
    ensures Solid(Negation(negate) + (o + "." + x))
  {
    RunDot(x);
    assert o + "." + x == o + ("." + x);
    NegationSolid(negate, o + "." + x);
  }

  lemma LeafSolid(style: Style, c: Cond)
    requires GoodLeaf(c)
    ensures Solid(PrintLeaf(style, c))
    ensures var p := PrintLeaf(style, c); p != [] && !Space(p[0]) && !Space(p[|p| - 1])
  {
    OperationSolid(style, c);
    BareFits(style, c);
    P.RunPath(Bare(style), c.path, c.last, "." + PrintOperation(style, c));
    RunDot(PrintOperation(style, c));
    OperandSolid(style, c);
    LeafEnds(style, c);
    P.HopHead(Bare(style), c.path, c.last);
  }

  lemma LeafEnds(style: Style, c: Cond)
    requires c.Compare? && c.path != [] && P.PrintPath(Bare(style), c.path, c.last) != []
    ensures var p, x := PrintLeaf(style, c), PrintOperand(style, c);
            && p[0] == P.PrintPath(Bare(style), c.path, c.last)[0]
            && p[|p| - 1] == if x == [] then '.' else x[|x| - 1]
  {
  }

  lemma BareFits(style: Style, c: Cond)
    requires GoodLeaf(c)
    ensures P.GoodPath(Bare(style), c.path, c.last) && P.Hidden(Bare(style), c.path)
  {
  }

  lemma NestedText(p: string)
    requires Nested(p)
    ensures
      || (|p| > 2 && p[0] == 'o' && p[1] == 'r' && p[2] == '(')
      || (|p| > 3 && p[0] == 'a' && p[1] == 'n' && p[2] == 'd' && p[3] == '(')
      || (|p| > 5 && p[0] == 'n' && p[1] == 'o' && p[2] == 't' && p[3] == '.' &&
          ((p[4] == 'a' && p[5] == 'n') || (p[4] == 'o' && p[5] == 'r')))
  {
  }

  /** A name without a parenthesis is taken for a group's keyword by nothing but a keyword after `not.`. */
  lemma NameNotNested(name: string, rest: string)
    requires P.Neutral(name) && name != "" && rest != [] && (rest[0] == '-' || rest[0] == '.')
    requires rest[0] == '.' ==> Distinct(rest[1..]) || (|rest| > 2 && rest[1] == 'n')
    ensures !Nested(name + rest)
  {
    var p := name + rest;
    assert p[|name|] == rest[0] && (|rest| > 2 ==> p[|name| + 1] == rest[1] && p[|name| + 2] == rest[2]);
    assert forall i :: 0 <= i < |name| ==> p[i] == name[i] && p[i] != '(' && p[i] != '.';
    if Nested(p) {
      NestedText(p);
      assert false;
    }
  }

  lemma OperationStarts(style: Style, c: Cond)
    requires GoodLeaf(c)
    ensures var o := PrintOperation(style, c); Distinct(o) || (|o| > 1 && o[0] == 'n')
  {
    TokenOf(c);
    var o := PrintOperation(style, c);
    assert if c.negate then o[0] == 'n' else o[0] == Token(c)[0] && o[1] == Token(c)[1];
  }

  lemma LeafNotNested(style: Style, c: Cond)
    requires GoodLeaf(c)
    ensures !Nested(PrintLeaf(style, c))
  {
    var bare, name, op := Bare(style), c.path[0], PrintOperation(style, c);
    var p := PrintLeaf(style, c);
    if bare(name) {
      OperationStarts(style, c);
      if |c.path| == 1 {
        NameNotNested(name, "." + op);
      } else {
        P.PrintedPathText(bare, c.path, c.last, "." + op);
        var arrow := P.PrintArrow(if |c.path| == 2 then c.last else Arrow);
        NameNotNested(name, arrow + (P.PrintPath(bare, c.path[1..], c.last) + ("." + op)));
      }
    } else {
      BareFits(style, c);
      P.HopHead(bare, c.path, c.last);
      assert p[0] == '"';
    }
  }

  lemma KidIsLeaf(p: string, text: string, rest: string, n: nat)
    requires p == text + ("." + rest) && |p| <= n && !Space(p[0]) && !Space(p[|p| - 1]) && !Nested(p)
    requires CutAt(p, '.', Plain) == |text| && P.PathOf(text).Ok?
    ensures var path := P.PathOf(text).value;
            KidOf(p, n) == CompareOf(path.0, path.1, rest)
  {
    TrimKeepsTight(p);
    assert p[..|text|] == text && p[|text| + 1..] == rest;
  }

  lemma LeafParses(style: Style, c: Cond, n: nat)
    requires GoodLeaf(c) && |PrintLeaf(style, c)| <= n
    ensures KidOf(PrintLeaf(style, c), n) == Ok(c)
  {
    var bare, op := Bare(style), PrintOperation(style, c);
    LeafSolid(style, c);
    LeafNotNested(style, c);
    BareFits(style, c);
    P.CutAfterPath(bare, c.path, c.last, "." + op);
    P.PathRoundTrip(bare, c.path, c.last);
    KidIsLeaf(PrintLeaf(style, c), P.PrintPath(bare, c.path, c.last), op, n);
    CompareRoundTrip(style, c);
  }

  /** White space around a member changes nothing. */
  lemma PaddedKid(pre: string, p: string, post: string, n: nat)
    requires Blank(pre) && Blank(post) && p != [] && Tight(p) && |pre + p + post| <= n
    ensures KidOf(pre + p + post, n) == KidOf(p, n)
  {
    TrimTakesBlanks(pre, p, post);
    TrimKeepsTight(p);
  }

  // ----- groups -----

  /** And/or, at most once negated, over at least one leaf or group. */
  predicate GoodGroup(c: Cond)
    decreases c, 1
  {
    match c
    case And(kids) => kids != [] && forall i :: 0 <= i < |kids| ==> GoodKid(kids[i])
    case Or(kids) => kids != [] && forall i :: 0 <= i < |kids| ==> GoodKid(kids[i])
    case Not(kid) => (kid.And? || kid.Or?) && GoodGroup(kid)
    case _ => false
  }

  predicate GoodKid(c: Cond)
    decreases c, 2
  {
    GoodLeaf(c) || GoodGroup(c)
  }

  function GroupOp(c: Cond): (op: string)
    ensures op == "and" || op == "or"
  {
    match c
    case Or(_) => "or"
    case Not(kid) => GroupOp(kid)
    case _ => "and"
  }

  /** The parenthesized members of a group, its operator and any negation left out. */
  function PrintMembers(style: Style, c: Cond): string
    requires GoodGroup(c)
    decreases c, 0
  {
    if c.Not? then PrintMembers(style, c.kid) else "(" + Join(PrintKids(style, c.kids)) + ")"
  }

  function PrintKids(style: Style, kids: seq<Cond>): (r: seq<string>)
    requires forall i :: 0 <= i < |kids| ==> GoodKid(kids[i])
    ensures |r| == |kids| && forall i :: 0 <= i < |kids| ==> r[i] == PrintKid(style, kids[i])
    decreases kids, 4
  {
    seq(|kids|, i requires 0 <= i < |kids| => PrintKid(style, kids[i]))
  }

  function PrintKid(style: Style, c: Cond): string
    requires GoodKid(c)
    decreases c, 3
  {
    if GoodLeaf(c) then PrintLeaf(style, c) else Negation(c.Not?) + (GroupOp(c) + PrintMembers(style, c))
  }

  /** The value of the and= or or= parameter that spells a group. */
  function PrintLogical(style: Style, c: Cond): string
    requires GoodGroup(c)
  {
    Negation(c.Not?) + PrintMembers(style, c)
  }

  lemma {:induction false} MembersSolid(style: Style, c: Cond)
    requires GoodGroup(c)
    ensures Solid(PrintMembers(style, c))
    ensures var p := PrintMembers(style, c); |p| >= 2 && p[0] == '(' && p[|p| - 1] == ')'
    decreases c, 0
  {
    if c.Not? {
      MembersSolid(style, c.kid);
    } else {
      var parts := PrintKids(style, c.kids);
      forall i | 0 <= i < |parts| ensures Solid(parts[i]) { KidSolid(style, c.kids[i]); }
      BracketedSolid('(', parts, ')');
      assert ['('] + Join(parts) + [')'] == PrintMembers(style, c);
    }
  }

  lemma {:induction false} KidSolid(style: Style, c: Cond)
    requires GoodKid(c)
    ensures Solid(PrintKid(style, c))
    ensures var p := PrintKid(style, c); p != [] && !Space(p[0]) && !Space(p[|p| - 1])
    decreases c, 1
  {
    if GoodLeaf(c) {
      LeafSolid(style, c);
    } else {
      MembersSolid(style, c);
      GroupKidSolid(style, c);
    }
  }

  lemma GroupKidSolid(style: Style, c: Cond)
    requires GoodGroup(c) && !GoodLeaf(c) && Solid(PrintMembers(style, c))
    requires var m := PrintMembers(style, c); m != [] && m[|m| - 1] == ')'
    ensures GoodKid(c) && Solid(PrintKid(style, c))
    ensures var p := PrintKid(style, c); p != [] && !Space(p[0]) && !Space(p[|p| - 1])
  {
    var op, members := GroupOp(c), PrintMembers(style, c);
    GroupTextSolid(op, members, c.Not?);
    GroupTextTight(op, members, c.Not?);
    assert PrintKid(style, c) == Negation(c.Not?) + (op + members);
  }

  lemma GroupTextTight(op: string, members: string, negate: bool)
    requires (op == "and" || op == "or") && members != [] && members[|members| - 1] == ')'
    ensures var p := Negation(negate) + (op + members); p != [] && !Space(p[0]) && !Space(p[|p| - 1])
  {
    var p := Negation(negate) + (op + members);
    assert p[0] == 'n' || p[0] == 'a' || p[0] == 'o';
    assert p[|p| - 1] == ')';
  }

  lemma GroupTextSolid(op: string, members: string, negate: bool)
    requires (op == "and" || op == "or") && Solid(members)
    ensures Solid(Negation(negate) + (op + members))
  {
    RunLetters(op, members, 0);
    NegationSolid(negate, op + members);
  }

  /** A nested group is recognized by its prefix and handed on from its parenthesis. */
  lemma KidIsGroup(op: string, members: string, negate: bool, n: nat)
    requires op == "and" || op == "or"
    requires Solid(members) && |members| >= 2 && members[0] == '(' && members[|members| - 1] == ')'
    requires |Negation(negate) + (op + members)| <= n
    ensures KidOf(Negation(negate) + (op + members), n) ==
            match LogicalOf(op, members) case Ok(node) => Ok(if negate then Not(node) else node) case Err(e) => Err(e)
  {
    var p := Negation(negate) + (op + members);
    GroupTextTight(op, members, negate);
    GroupPrefix(op, members, negate);
    GroupParenthesis(op, members, negate);
    KidIsNested(p, op, members, negate, n);
  }

  lemma KidIsNested(p: string, op: string, members: string, negate: bool, n: nat)
    requires op == "and" || op == "or"
    requires |p| <= n && p != [] && !Space(p[0]) && !Space(p[|p| - 1])
    requires Nested(p) && ("not." <= p <==> negate) && (("or(" <= p || "not.or(" <= p) <==> op == "or")
    requires p[Index(p, '(')..] == members
    ensures KidOf(p, n) ==
            match LogicalOf(op, members) case Ok(node) => Ok(if negate then Not(node) else node) case Err(e) => Err(e)
  {
    TrimKeepsTight(p);
  }

  lemma GroupParenthesis(op: string, members: string, negate: bool)
    requires (op == "and" || op == "or") && members != [] && members[0] == '('
    ensures var p := Negation(negate) + (op + members); p[Index(p, '(')..] == members
  {
    var prefix := Negation(negate) + op;
    var p := prefix + ['('] + members[1..];
    IndexAfter(prefix, '(', members[1..]);
    assert Negation(negate) + (op + members) == p && p[|prefix|..] == members;
  }

  lemma GroupPrefix(op: string, members: string, negate: bool)
    requires (op == "and" || op == "or") && members != [] && members[0] == '('
    ensures var p := Negation(negate) + (op + members);
            && Nested(p) && ("not." <= p <==> negate)
            && (("or(" <= p || "not.or(" <= p) <==> op == "or")
  {
    var p := Negation(negate) + (op + members);
    if negate {
      if op == "or" {
        assert p[..7] == "not.or(";
      } else {
        assert p[..8] == "not.and(" && p[4] == 'a';
      }
    } else {
      if op == "or" {
        assert p[..3] == "or(" && p[0] == 'o';
      } else {
        assert p[..4] == "and(" && p[0] == 'a';
      }
    }
  }

  lemma {:induction false} KidRoundTrip(style: Style, c: Cond, n: nat)
    requires GoodKid(c) && |PrintKid(style, c)| <= n
    ensures KidOf(PrintKid(style, c), n) == Ok(c)
    decreases c, 3
  {
    if GoodLeaf(c) {
      LeafParses(style, c, n);
    } else {
      MembersSolid(style, c);
      KidIsGroup(GroupOp(c), PrintMembers(style, c), c.Not?, n);
      MembersRoundTrip(style, if c.Not? then c.kid else c);
    }
  }

  /** Reading every piece in order, whatever the reader. */
  function Collected<T>(parts: seq<string>, read: string -> Parsed<T>): Parsed<seq<T>> {
    if parts == [] then Ok([])
    else
      var rest :- Collected(parts[..|parts| - 1], read);
      var kid :- read(parts[|parts| - 1]);
      Ok(rest + [kid])
  }

  lemma {:induction false} CollectedAll<T>(parts: seq<string>, read: string -> Parsed<T>, kids: seq<T>)
    requires |parts| == |kids| && forall i :: 0 <= i < |parts| ==> read(parts[i]) == Ok(kids[i])
    ensures Collected(parts, read) == Ok(kids)
  {
    if parts != [] {
      var k := |parts| - 1;
      CollectedAll(parts[..k], read, kids[..k]);
      assert kids[..k] + [kids[k]] == kids;
    }
  }

  function Reader(n: nat): string -> Parsed<Cond> { (p: string) => if |p| <= n then KidOf(p, n) else Err("") }

  lemma {:induction false} KidsAreCollected(parts: seq<string>, n: nat)
    requires forall i :: 0 <= i < |parts| ==> |parts[i]| <= n
    ensures KidsOf(parts, n) == Collected(parts, Reader(n))
  {
    if parts != [] {
      KidsAreCollected(parts[..|parts| - 1], n);
    }
  }

  lemma {:induction false} KidsRoundTrip(style: Style, kids: seq<Cond>, n: nat)
    requires forall i :: 0 <= i < |kids| ==> GoodKid(kids[i]) && |PrintKid(style, kids[i])| <= n
    ensures KidsOf(PrintKids(style, kids), n) == Ok(kids)
    decreases kids, 4
  {
    var parts := PrintKids(style, kids);
    var read := Reader(n);
    forall i | 0 <= i < |parts| ensures read(parts[i]) == Ok(kids[i]) { KidRoundTrip(style, kids[i], n); }
    CollectedAll(parts, read, kids);
    KidsAreCollected(parts, n);
  }

  /** A bracketed list of solid pieces is split into those pieces. */
  lemma BracketedReads(op: string, parts: seq<string>, kids: seq<Cond>)
    requires parts != [] && (forall i :: 0 <= i < |parts| ==> Solid(parts[i]) && |parts[i]| <= |Join(parts)|)
    requires KidsOf(parts, |Join(parts)|) == Ok(kids)
    ensures LogicalOf(op, "(" + Join(parts) + ")") == Ok(Connect(op, kids))
  {
    var inner := Join(parts);
    var body := "(" + inner + ")";
    TrimKeepsTight(body);
    SplitJoin(parts);
    assert body[1..|body| - 1] == inner;
  }

  lemma {:induction false} MembersRoundTrip(style: Style, c: Cond)
    requires GoodGroup(c) && !c.Not?
    ensures LogicalOf(GroupOp(c), PrintMembers(style, c)) == Ok(c)
    decreases c, 2
  {
    var parts := PrintKids(style, c.kids);
    forall i | 0 <= i < |parts| ensures Solid(parts[i]) { KidSolid(style, c.kids[i]); }
    SplitJoin(parts);
    KidsRoundTrip(style, c.kids, |Join(parts)|);
    BracketedReads(GroupOp(c), parts, c.kids);
  }

  /** A negated parameter is the negation of what it negates. */
  lemma NegatedLogical(op: string, members: string)
    requires members != [] && members[0] == '('
    ensures LogicalOf(op, "not." + members) ==
            match LogicalOf(op, members) case Ok(node) => Ok(Not(node)) case Err(e) => Err(e)
  {
    var raw := "not." + members;
    assert raw[4..] == members;
  }

  /** Parsing the printed form of any logical tree, nested to any depth, returns the tree. */
  lemma LogicalRoundTrip(style: Style, c: Cond)
    requires GoodGroup(c)
    ensures LogicalOf(GroupOp(c), PrintLogical(style, c)) == Ok(c)
  {
    if c.Not? {
      MembersSolid(style, c.kid);
      MembersRoundTrip(style, c.kid);
      NegatedLogical(GroupOp(c), PrintMembers(style, c));
    } else {
      MembersRoundTrip(style, c);
      assert PrintLogical(style, c) == PrintMembers(style, c);
    }
  }

  // ----- whatever is accepted makes sense -----

  predicate StarFree(v: Value) { '*' !in v.text && forall i :: 0 <= i < |v.list| ==> '*' !in v.list[i] }

  /** The value an operator takes: a non-empty list under a quantifier or `in`, a state for `is`, else a text. */
  predicate Fitting(op: Op, quant: Quant, v: Value) {
    && (quant != QNone ==> Quantifiable(op))
    && (if quant != QNone || op == In then v == List(v.list) && v.list != [] else v == Text(v.text))
    && (op == Is ==> v.text in ["null", "true", "false", "unknown", "not_null"])
    && (op == Like || op == ILike ==> StarFree(v))
  }

  /** A comparison of a path of non-empty names with a value that fits its operator. */
  predicate ShapedLeaf(c: Cond) {
    && c.Compare? && c.path != [] && "" !in c.path && (|c.path| == 1 <==> c.last == NoStep)
    && Fitting(c.op, c.quant, c.value) && (c.op != Fts ==> c.fts == FtsPlain && c.config == "")
  }

  /** A tree of such comparisons in groups that are never empty and are negated at most once. */
  predicate Shaped(c: Cond) {
    match c
    case And(kids) => kids != [] && forall i :: 0 <= i < |kids| ==> Shaped(kids[i])
    case Or(kids) => kids != [] && forall i :: 0 <= i < |kids| ==> Shaped(kids[i])
    case Not(kid) => (kid.And? || kid.Or?) && Shaped(kid)
    case Compare(_, _, _, _, _, _, _, _) => ShapedLeaf(c)
    case EmbedPredicate(_, _) => false
  }

  lemma WildcardsGone(s: string)
    ensures '*' !in Wildcards(s)
  {
  }

  lemma QuantifiedFits(op: Op, quant: Quant, operand: string)
    requires op != Fts && quant != QNone && Quantifiable(op)
    ensures var v := ValueOf(op, quant, operand); v.Ok? ==> Fitting(op, quant, v.value)
  {
    ListAccepts(operand, '{', '}');
    var l := ListOf(operand, '{', '}');
    if l.Ok? {
      forall i | 0 <= i < |l.value| ensures '*' !in WildcardsIn(l.value)[i] { WildcardsGone(l.value[i]); }
    }
  }

  lemma ValueFits(op: Op, quant: Quant, operand: string)
    requires op != Fts && (quant != QNone ==> Quantifiable(op))
    ensures var v := ValueOf(op, quant, operand); v.Ok? ==> Fitting(op, quant, v.value)
  {
    if quant != QNone {
      QuantifiedFits(op, quant, operand);
    } else if op == In {
      ListAccepts(operand, '(', ')');
    } else {
      WildcardsGone(operand);
    }
  }

  lemma OperationShaped(path: seq<string>, last: JsonStep, negate: bool, tok: string, operand: string)
    requires path != [] && "" !in path && (|path| == 1 <==> last == NoStep)
    ensures var c := OperationOf(path, last, negate, tok, operand); c.Ok? ==> ShapedLeaf(c.value)
  {
    var o := OperatorOf(tok);
    if o.Ok? && QuantOf(o.value.1).Ok? && OpFromToken(o.value.0).Some? {
      var op, quant := OpFromToken(o.value.0).value, QuantOf(o.value.1).value;
      if quant == QNone || Quantifiable(op) {
        NotFts(o.value.0);
        ValueFits(op, quant, operand);
      }
    }
  }

  lemma NotFts(tok: string)
    ensures OpFromToken(tok) != Some(Fts)
  {
  }

  lemma LeafShaped(p: string, n: nat)
    requires !Nested(Trim(p)) && |p| <= n
    ensures KidOf(p, n).Ok? ==> ShapedLeaf(KidOf(p, n).value)
  {
    var t := Trim(p);
    var i := CutAt(t, '.', Plain);
    if i < |t| && P.PathOf(t[..i]).Ok? {
      P.PathShaped(t[..i]);
      CompareShaped(P.PathOf(t[..i]).value, t[i + 1..]);
    }
  }

  lemma CompareShaped(path: (seq<string>, JsonStep), raw: string)
    requires path.0 != [] && "" !in path.0 && (|path.0| == 1 <==> path.1 == NoStep)
    ensures var c := CompareOf(path.0, path.1, raw); c.Ok? ==> ShapedLeaf(c.value)
  {
    var cut := CutOperation(raw);
    if cut.Ok? {
      OperationShaped(path.0, path.1, cut.value.0, cut.value.1, cut.value.2);
    }
  }

  lemma {:induction false} KidShaped(part: string, n: nat)
    requires |part| <= n
    ensures KidOf(part, n).Ok? ==> Shaped(KidOf(part, n).value)
    decreases n, 0
  {
    var p := Trim(part);
    if Nested(p) {
      ParenthesisFirst(p);
      GroupShaped(if "or(" <= p || "not.or(" <= p then "or" else "and", p[Index(p, '(')..]);
    } else {
      LeafShaped(part, n);
    }
  }

  lemma ParenthesisFirst(p: string)
    requires Nested(p)
    ensures var raw := p[Index(p, '(')..]; raw != [] && raw[0] == '(' && |raw| < |p|
  {
    NestedText(p);
    NestedOpens(p);
    IndexFound(p, '(');
  }

  lemma NestedOpens(p: string)
    requires Nested(p)
    ensures '(' in p
  {
    if "and(" <= p {
      assert p[3] == '(';
    } else if "or(" <= p {
      assert p[2] == '(';
    } else if "not.and(" <= p {
      assert p[7] == '(';
    } else {
      assert p[6] == '(';
    }
  }

  lemma {:induction false} KidsShaped(parts: seq<string>, n: nat)
    requires forall i :: 0 <= i < |parts| ==> |parts[i]| <= n
    ensures var r := KidsOf(parts, n);
            r.Ok? ==> |r.value| == |parts| && forall i :: 0 <= i < |r.value| ==> Shaped(r.value[i])
    decreases n, 1, |parts|
  {
    if parts != [] {
      var k := |parts| - 1;
      KidsShaped(parts[..k], n);
      KidShaped(parts[k], n);
    }
  }

  lemma ConnectShaped(op: string, kids: seq<Cond>)
    requires kids != [] && forall i :: 0 <= i < |kids| ==> Shaped(kids[i])
    ensures Shaped(Connect(op, kids)) && Shaped(Not(Connect(op, kids))) && !Connect(op, kids).Not?
  {
  }

  /** Whatever the text of a parameter, a tree that parses is one that makes sense. */
  lemma {:induction false} GroupShaped(op: string, raw: string)
    ensures var r := LogicalOf(op, raw);
            r.Ok? ==> Shaped(r.value) && (r.value.Not? <==> "not." <= raw)
    decreases |raw|, 0
  {
    var body := Trim(if "not." <= raw then raw[4..] else raw);
    if |body| >= 2 && body[0] == '(' && body[|body| - 1] == ')' {
      var inner := body[1..|body| - 1];
      var parts := Split(inner, TOP);
      KidsShaped(parts, |inner|);
      if KidsOf(parts, |inner|).Ok? {
        ConnectShaped(op, KidsOf(parts, |inner|).value);
      }
    }
  }
}
