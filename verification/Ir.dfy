/** The filter tree of the query IR (ir/ir.go) and its meaning in three-valued logic. */
module Ir {
  import opened Wrappers
  import Json

  datatype Op =
    | Eq | Neq | Gt | Gte | Lt | Lte | Like | ILike | Match | IMatch | In | Is | IsDistinct | Fts
    | Contains | Contained | Overlap | RangeSL | RangeSR | RangeNXR | RangeNXL | RangeAdj

  /** What the last hop of a JSON path returns. */
  datatype JsonStep = NoStep | Arrow | Arrow2

  datatype Quant = QNone | QAny | QAll

  datatype FtsVariant = FtsPlain | FtsPlainText | FtsPhrase | FtsWeb

  /** A literal: text for most operators, a list for `in` and quantified ones, JSON in a write payload. */
  datatype Value = Value(text: string, list: seq<string>, json: Option<Json.Json>)

  function Text(s: string): Value { Value(s, [], None) }

  function List(l: seq<string>): Value { Value("", l, None) }

  datatype Cond =
    | And(kids: seq<Cond>)
    | Or(kids: seq<Cond>)
    | Not(kid: Cond)
    | EmbedPredicate(index: int, exists_: bool)
    | Compare(path: seq<string>, last: JsonStep, op: Op, value: Value, quant: Quant, negate: bool,
              fts: FtsVariant, config: string)

  datatype Truth = True | False | Unknown

  function Not3(t: Truth): Truth {
    match t
    case True => False
    case False => True
    case Unknown => Unknown
  }

  function FromBool(b: bool): Truth { if b then True else False }

  /**
  SQL's meaning of a tree. A leaf is an EmbedPredicate or the positive form of a comparison;
  `leaf` gives its truth on the row at hand.
  */
  function Eval(c: Cond, leaf: Cond -> Truth): Truth {
    match c
    case And(kids) =>
      if exists i :: 0 <= i < |kids| && Eval(kids[i], leaf) == False then False
      else if exists i :: 0 <= i < |kids| && Eval(kids[i], leaf) == Unknown then Unknown
      else True
    case Or(kids) =>
      if exists i :: 0 <= i < |kids| && Eval(kids[i], leaf) == True then True
      else if exists i :: 0 <= i < |kids| && Eval(kids[i], leaf) == Unknown then Unknown
      else False
    case Not(kid) => Not3(Eval(kid, leaf))
    case EmbedPredicate(_, _) => leaf(c)
    case Compare(_, _, _, _, _, _, _, _) =>
      if c.negate then Not3(leaf(c.(negate := false))) else leaf(c)
  }
}
