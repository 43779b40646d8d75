/** The order of buffered cells and rows (backend/writerep.go, compareCells and the order comparator). */
module RowOrder {
  import opened Wrappers

  /**
  A number carries the text it prints as, which matters only against a cell that is not a number. A NaN, which
  prints as nothing, is a number to the comparison.
  */
  datatype Cell = Null | Num(n: real, text: string) | NaN | Bool(b: bool) | Text(s: string)

  /** Binary collation: -1, 0 or 1. */
  function CompareText(a: string, b: string): int {
    if a == [] then (if b == [] then 0 else -1)
    else if b == [] then 1
    else if a[0] != b[0] then (if a[0] < b[0] then -1 else 1)
    else CompareText(a[1..], b[1..])
  }

  function CompareNum(a: real, b: real): int { if a < b then -1 else if a > b then 1 else 0 }

  function Printed(c: Cell): string {
    match c
    case Null => "null"
    case Num(_, t) => t
    case NaN => ""
    case Bool(b) => if b then "true" else "false"
    case Text(s) => s
  }

  /** Numbers by magnitude, NaN equal to each, booleans false first, anything else by its text. */
  function CompareCells(a: Cell, b: Cell): int {
    if (a.Num? || a.NaN?) && (b.Num? || b.NaN?) then (if a.NaN? || b.NaN? then 0 else CompareNum(a.n, b.n))
    else if a.Bool? && b.Bool? then (if a.b == b.b then 0 else if !a.b then -1 else 1)
    else CompareText(Printed(a), Printed(b))
  }

  function Flip(desc: bool, c: int): int { if desc then -c else c }

  /** One sort key: NULL placement is absolute, the direction applies to values only. */
  function CompareKeyed(desc: bool, nullsFirst: bool, a: Cell, b: Cell): int {
    if a.Null? && b.Null? then 0
    else if a.Null? then (if nullsFirst then -1 else 1)
    else if b.Null? then (if nullsFirst then 1 else -1)
    else Flip(desc, CompareCells(a, b))
  }

  // ----- laws -----

  /** What a three-way comparison of three items must satisfy to sort by. */
  ghost predicate Lawful(aa: int, ab: int, ba: int, bc: int, ac: int) {
    && aa == 0 && ab == -ba
    && (ab <= 0 && bc <= 0 ==> ac <= 0)
    && (ab >= 0 && bc >= 0 ==> ac >= 0)
    && (ab < 0 && bc <= 0 ==> ac < 0) && (ab <= 0 && bc < 0 ==> ac < 0)
    && (ab > 0 && bc >= 0 ==> ac > 0) && (ab >= 0 && bc > 0 ==> ac > 0)
  }

  lemma {:induction false} CompareTextLawful(a: string, b: string, c: string)
    ensures Lawful(CompareText(a, a), CompareText(a, b), CompareText(b, a), CompareText(b, c), CompareText(a, c))
    ensures CompareText(a, b) == 0 <==> a == b
    decreases |a| + |b| + |c|
  {
    if a != [] {
      CompareTextLawful(a[1..], if b == [] then [] else b[1..], if c == [] then [] else c[1..]);
      if b != [] && a[0] == b[0] {
        assert a == [a[0]] + a[1..] && b == [b[0]] + b[1..];
      }
    }
    if b != [] && c != [] && a == [] {
      CompareTextLawful([], b[1..], c[1..]);
    }
  }

  /** Text `a` comes before `b`: it is a proper prefix, or smaller at the first character that differs. */
  ghost predicate Precedes(a: string, b: string) {
    exists i :: 0 <= i <= |a| && i < |b| && DiffersAt(a, b, i)
  }

  predicate DiffersAt(a: string, b: string, i: nat)
    requires i <= |a| && i < |b|
  {
    a[..i] == b[..i] && (i < |a| ==> a[i] < b[i])
  }

  lemma DiffersLater(a: string, b: string, i: nat)
    requires a != [] && b != [] && a[0] == b[0] && i < |a| && i + 1 < |b|
    ensures DiffersAt(a, b, i + 1) <==> DiffersAt(a[1..], b[1..], i)
  {
    assert a[..i + 1] == [a[0]] + a[1..][..i] && b[..i + 1] == [b[0]] + b[1..][..i];
    if a[..i + 1] == b[..i + 1] {
      assert a[1..][..i] == a[..i + 1][1..] && b[1..][..i] == b[..i + 1][1..];
    }
  }

  /** The comparison of texts is the lexicographic order of their characters. */
  lemma {:induction false} TextIsLexicographic(a: string, b: string)
    ensures CompareText(a, b) < 0 <==> Precedes(a, b)
  {
    if a == [] {
      assert b != [] ==> DiffersAt(a, b, 0);
    } else if b != [] {
      if a[0] == b[0] {
        LexicographicTail(a, b);
        TextIsLexicographic(a[1..], b[1..]);
      } else {
        FirstDiffers(a, b);
      }
    }
  }

  lemma FirstDiffers(a: string, b: string)
    requires a != [] && b != [] && a[0] != b[0]
    ensures Precedes(a, b) <==> a[0] < b[0]
  {
    if a[0] < b[0] {
      assert DiffersAt(a, b, 0);
    }
    forall i | 0 < i <= |a| && i < |b| ensures !DiffersAt(a, b, i) { assert a[..i][0] != b[..i][0]; }
  }

  lemma LexicographicTail(a: string, b: string)
    requires a != [] && b != [] && a[0] == b[0]
    ensures Precedes(a, b) <==> Precedes(a[1..], b[1..])
  {
    if i :| 0 <= i <= |a| && i < |b| && DiffersAt(a, b, i) {
      assert i > 0;
      DiffersLater(a, b, i - 1);
      assert DiffersAt(a[1..], b[1..], i - 1);
    }
    if i :| 0 <= i <= |a[1..]| && i < |b[1..]| && DiffersAt(a[1..], b[1..], i) {
      DiffersLater(a, b, i);
      assert DiffersAt(a, b, i + 1);
    }
  }

  /** One value stands before another: the smaller number, false before true, or the text that comes first. */
  ghost predicate Smaller(a: Cell, b: Cell) {
    match (a, b)
    case (Num(x, _), Num(y, _)) => x < y
    case (Bool(x), Bool(y)) => !x && y
    case (Text(x), Text(y)) => Precedes(x, y)
    case _ => false
  }

  predicate SameKind(a: Cell, b: Cell) { (a.Num? && b.Num?) || (a.Bool? && b.Bool?) || (a.Text? && b.Text?) }

  lemma ComparesValues(a: Cell, b: Cell)
    requires SameKind(a, b)
    ensures CompareCells(a, b) < 0 <==> Smaller(a, b)
    ensures CompareCells(a, b) > 0 <==> Smaller(b, a)
  {
    if a.Text? {
      TextIsLexicographic(a.s, b.s);
      TextIsLexicographic(b.s, a.s);
      CompareTextLawful(a.s, b.s, a.s);
    }
  }

  // ----- which kinds of cells a sort column may mix -----

  datatype Kind = Number | NotANumber | Boolean | Textual

  function KindOf(c: Cell): Option<Kind> {
    match c
    case Null => None
    case Num(_, _) => Some(Number)
    case NaN => Some(NotANumber)
    case Bool(_) => Some(Boolean)
    case Text(_) => Some(Textual)
  }

  /** A number prints as a JSON numeral, or as nothing when it is infinite. */
  predicate Spelled(c: Cell) {
    c.Num? && c.text != "" ==> c.text[0] == '-' || '0' <= c.text[0] <= '9'
  }

  /** Two cells that a column may hold together: a number goes with numbers, booleans and NULLs only. */
  predicate Mixable(a: Cell, b: Cell) {
    Spelled(a) && Spelled(b) && !(a.Num? && (b.Text? || b.NaN?)) && !(b.Num? && (a.Text? || a.NaN?))
  }

  ghost predicate KeyedLawful(desc: bool, nullsFirst: bool, a: Cell, b: Cell, c: Cell) {
    Lawful(CompareKeyed(desc, nullsFirst, a, a), CompareKeyed(desc, nullsFirst, a, b),
           CompareKeyed(desc, nullsFirst, b, a), CompareKeyed(desc, nullsFirst, b, c),
           CompareKeyed(desc, nullsFirst, a, c))
  }

  /** Cells that are not numbers compare by their texts: the boolean order is that of `false` and `true`. */
  lemma ByText(a: Cell, b: Cell)
    requires !a.Num? && !b.Num?
    ensures CompareCells(a, b) == CompareText(Printed(a), Printed(b))
  {
    assert CompareText("false", "true") == -1 && CompareText("true", "false") == 1;
    CompareTextLawful(Printed(a), Printed(b), Printed(a));
  }

  /** Every numeral comes before `false`. */
  lemma NumberBeforeBool(a: Cell, b: Cell)
    requires a.Num? && b.Bool? && Spelled(a)
    ensures CompareCells(a, b) == -1 && CompareCells(b, a) == 1
  {
  }

  ghost predicate CellsLawful(a: Cell, b: Cell, c: Cell) {
    Lawful(CompareCells(a, a), CompareCells(a, b), CompareCells(b, a), CompareCells(b, c), CompareCells(a, c))
  }

  lemma ValuesLawful(a: Cell, b: Cell, c: Cell)
    requires Mixable(a, b) && Mixable(b, c) && Mixable(a, c) && !a.Null? && !b.Null? && !c.Null?
    ensures CellsLawful(a, b, c)
  {
    if !a.Num? && !b.Num? && !c.Num? {
      CompareTextLawful(Printed(a), Printed(b), Printed(c));
      ByText(a, a);
      ByText(a, b);
      ByText(b, a);
      ByText(b, c);
      ByText(a, c);
    } else {
      NumbersFirst(a, b);
      NumbersFirst(b, c);
      NumbersFirst(a, c);
    }
  }

  /** Where one of two cells may be a number, the order is numbers by magnitude, then booleans. */
  lemma NumbersFirst(a: Cell, b: Cell)
    requires Mixable(a, b)
    ensures a.Num? && b.Bool? ==> CompareCells(a, b) == -1 && CompareCells(b, a) == 1
    ensures b.Num? && a.Bool? ==> CompareCells(b, a) == -1 && CompareCells(a, b) == 1
  {
    if a.Num? && b.Bool? {
      NumberBeforeBool(a, b);
    } else if b.Num? && a.Bool? {
      NumberBeforeBool(b, a);
    }
  }

  lemma CompareKeyedLawful(desc: bool, nullsFirst: bool, a: Cell, b: Cell, c: Cell)
    requires Mixable(a, b) && Mixable(b, c) && Mixable(a, c)
    ensures KeyedLawful(desc, nullsFirst, a, b, c)
  {
    var x := if !a.Null? then a else if !b.Null? then b else c;
    if !x.Null? {
      ValuesLawful(if a.Null? then x else a, if b.Null? then x else b, if c.Null? then x else c);
    }
  }

  predicate Fits(kinds: set<Kind>, c: Cell) { Spelled(c) && (KindOf(c).Some? ==> KindOf(c).value in kinds) }

  /** Sorting by one key is lawful on all columns that hold these kinds of values, and NULLs. */
  ghost predicate LawfulOn(kinds: set<Kind>) {
    forall desc, nullsFirst, a, b, c :: Fits(kinds, a) && Fits(kinds, b) && Fits(kinds, c) ==>
      KeyedLawful(desc, nullsFirst, a, b, c)
  }

  /** 9 is before 10 as numbers, 10 before "5" and "5" before 9 as text. */
  lemma TextCycle()
    ensures !KeyedLawful(false, false, Num(9.0, "9"), Num(10.0, "10"), Text("5"))
  {
    assert CompareText("10", "5") == -1 && CompareText("9", "5") == 1;
  }

  /** A NaN ties with 9 and with 10, which differ. */
  lemma NaNTies()
    ensures !KeyedLawful(false, false, Num(9.0, "9"), NaN, Num(10.0, "10"))
  {
  }

  /** A column can be sorted exactly when it does not mix numbers with text or with NaN. */
  lemma LawfulIffNumbersApart(kinds: set<Kind>)
    ensures LawfulOn(kinds) <==> (Number in kinds ==> Textual !in kinds && NotANumber !in kinds)
  {
    if Number in kinds && Textual in kinds {
      TextCycle();
      assert Fits(kinds, Num(9.0, "9")) && Fits(kinds, Num(10.0, "10")) && Fits(kinds, Text("5"));
    } else if Number in kinds && NotANumber in kinds {
      NaNTies();
      assert Fits(kinds, Num(9.0, "9")) && Fits(kinds, Num(10.0, "10")) && Fits(kinds, NaN);
    } else {
      forall desc, nullsFirst, a, b, c | Fits(kinds, a) && Fits(kinds, b) && Fits(kinds, c)
        ensures KeyedLawful(desc, nullsFirst, a, b, c)
      {
        CompareKeyedLawful(desc, nullsFirst, a, b, c);
      }
    }
  }
}
