/** The Prefer header (ir/prefer.go): the first token of a preference decides, wherever it stands. */
module Preferences {
  import opened Wrappers
  import opened Strings

  datatype TxMode = TxAuto | TxCommit | TxRollback

  /** The db-tx-end server policy. */
  datatype TxEnd = EndCommit | EndCommitAllowOverride | EndRollback | EndRollbackAllowOverride

  /** The preferences the server knows. */
  datatype Pref = Return | Count | Resolution | Missing | Tx | Handling | MaxAffect | Timezone

  function Name(p: Pref): string {
    match p
    case Return => "return"
    case Count => "count"
    case Resolution => "resolution"
    case Missing => "missing"
    case Tx => "tx"
    case Handling => "handling"
    case MaxAffect => "max-affected"
    case Timezone => "timezone"
  }

  // ----- tokens -----

  function SplitComma(s: string): (r: seq<string>)
    ensures r != []
  {
    if s == [] then [[]]
    else if s[0] == ',' then [[]] + SplitComma(s[1..])
    else Attach([s[0]], SplitComma(s[1..]))
  }

  function KeyOf(tok: string): string { Trim(tok[..Index(tok, '=')]) }

  /** The known preference a key names. */
  function Named(k: string): (p: Option<Pref>)
    ensures p.Some? ==> k == Name(p.value)
  {
    NamedAmong(k, [Return, Count, Resolution, Missing, Tx, Handling, MaxAffect, Timezone])
  }

  function NamedAmong(k: string, prefs: seq<Pref>): (p: Option<Pref>)
    ensures p.Some? ==> k == Name(p.value)
    ensures p.None? ==> forall i :: 0 <= i < |prefs| ==> k != Name(prefs[i])
  {
    if prefs == [] then None
    else if k == Name(prefs[0]) then Some(prefs[0])
    else NamedAmong(k, prefs[1..])
  }

  function ValueOf(tok: string): string {
    if Index(tok, '=') == |tok| then "" else Trim(tok[Index(tok, '=') + 1..])
  }

  /** A token: the preference it names, if known, and the value it states. */
  datatype Token = Token(pref: Option<Pref>, value: string, text: string)

  function Read(tok: string): Token { Token(Named(KeyOf(tok)), ValueOf(tok), tok) }

  /** The trimmed, non-empty tokens among the first `n` pieces. */
  function Trimmed(parts: seq<string>, n: nat): seq<Token>
    requires n <= |parts|
  {
    Gathered(parts, Kept, n)
  }

  /** What is kept of each of the first `n` pieces, in order. */
  function Gathered<T>(parts: seq<string>, keep: string -> seq<T>, n: nat): seq<T>
    requires n <= |parts|
  {
    if n == 0 then [] else Gathered(parts, keep, n - 1) + keep(parts[n - 1])
  }

  function Kept(part: string): seq<Token> { if Trim(part) == "" then [] else [Read(Trim(part))] }

  lemma TrimmedNext(tokens: seq<Token>, parts: seq<string>, j: nat)
    requires j < |parts|
    ensures tokens + Trimmed(parts, j + 1) == (tokens + Trimmed(parts, j)) + Kept(parts[j])
  {
  }

  /** The tokens of the first `n` header lines. */
  function Tokens(headers: seq<string>, n: nat): seq<Token>
    requires n <= |headers|
  {
    if n == 0 then []
    else
      var parts := SplitComma(headers[n - 1]);
      Tokens(headers, n - 1) + Trimmed(parts, |parts|)
  }

  /** The names the server knows. */
  lemma NamesMean(k: string)
    ensures Named(k) == match k
      case "return" => Some(Return)
      case "count" => Some(Count)
      case "resolution" => Some(Resolution)
      case "missing" => Some(Missing)
      case "tx" => Some(Tx)
      case "handling" => Some(Handling)
      case "max-affected" => Some(MaxAffect)
      case "timezone" => Some(Timezone)
      case _ => None
  {
    KnownIsNamed(k, [Return, Count, Resolution, Missing, Tx, Handling, MaxAffect, Timezone]);
  }

  lemma {:induction false} KnownIsNamed(k: string, prefs: seq<Pref>)
    ensures NamedAmong(k, prefs).None? <==> forall p :: p in prefs ==> k != Name(p)
  {
    if prefs != [] && k != Name(prefs[0]) {
      KnownIsNamed(k, prefs[1..]);
      assert prefs == [prefs[0]] + prefs[1..];
    }
  }

  /** A preference as it is sent, with white space wherever it may stand. */
  datatype Sent = Sent(key: string, value: string, pads: (string, string, string, string))

  predicate Sendable(s: Sent) {
    && s.key != "" && Tight(s.key) && '=' !in s.key && ',' !in s.key
    && s.value != "" && Tight(s.value) && ',' !in s.value
    && Blank(s.pads.0) && Blank(s.pads.1) && Blank(s.pads.2) && Blank(s.pads.3)
  }

  function Core(s: Sent): string { (s.key + s.pads.1) + ['='] + (s.pads.2 + s.value) }

  function Print(s: Sent): string { s.pads.0 + Core(s) + s.pads.3 }

  lemma CoreTight(s: Sent)
    requires Sendable(s)
    ensures Core(s) != "" && Tight(Core(s))
  {
    assert Core(s)[0] == s.key[0] && Core(s)[|Core(s)| - 1] == s.value[|s.value| - 1];
  }

  /** The text around an equals sign. */
  lemma CutAtEquals(left: string, right: string)
    requires '=' !in left
    ensures var t := left + ['='] + right;
            Index(t, '=') == |left| && |left| < |t| && t[..|left|] == left && t[|left| + 1..] == right
  {
    IndexAfter(left, '=', right);
  }

  lemma CoreReads(s: Sent)
    requires Sendable(s)
    ensures Read(Core(s)) == Token(Named(s.key), s.value, Core(s))
  {
    var left, right := s.key + s.pads.1, s.pads.2 + s.value;
    CutAtEquals(left, right);
    TrimTakesBlanks("", s.key, s.pads.1);
    TrimTakesBlanks(s.pads.2, s.value, "");
    assert "" + s.key + s.pads.1 == left && s.pads.2 + s.value + "" == right;
  }

  lemma PrintReads(s: Sent)
    requires Sendable(s)
    ensures Kept(Print(s)) == [Token(Named(s.key), s.value, Core(s))]
  {
    CoreTight(s);
    TrimTakesBlanks(s.pads.0, Core(s), s.pads.3);
    assert Kept(Print(s)) == [Read(Core(s))];
    CoreReads(s);
  }

  lemma BlankNoComma(s: string)
    requires Blank(s)
    ensures ',' !in s
  {
    forall i | 0 <= i < |s| ensures s[i] != ',' { assert Space(s[i]); }
  }

  lemma PrintNoComma(s: Sent)
    requires Sendable(s)
    ensures ',' !in Print(s)
  {
    BlankNoComma(s.pads.0);
    BlankNoComma(s.pads.1);
    BlankNoComma(s.pads.2);
    BlankNoComma(s.pads.3);
  }

  lemma {:induction false} SplitCommaOne(a: string, rest: string)
    requires ',' !in a
    ensures SplitComma(a) == [a]
    ensures SplitComma(a + "," + rest) == [a] + SplitComma(rest)
  {
    if a == [] {
      assert a + "," + rest == "," + rest;
    } else {
      assert (a + "," + rest)[1..] == a[1..] + "," + rest;
      SplitCommaOne(a[1..], rest);
      assert [a[0]] + a[1..] == a;
    }
  }

  lemma {:induction false} SplitCommaJoin(parts: seq<string>)
    requires parts != [] && forall i :: 0 <= i < |parts| ==> ',' !in parts[i]
    ensures SplitComma(Join(parts)) == parts
  {
    if |parts| == 1 {
      SplitCommaOne(parts[0], "");
    } else {
      SplitCommaOne(parts[0], Join(parts[1..]));
      SplitCommaJoin(parts[1..]);
    }
  }

  function Printed(sent: seq<Sent>): (r: seq<string>)
    ensures |r| == |sent|
  {
    seq(|sent|, i requires 0 <= i < |sent| => Print(sent[i]))
  }

  /** The tokens are the preferences, name and value. */
  ghost predicate TokensOf(tokens: seq<Token>, sent: seq<Sent>) {
    |tokens| == |sent| &&
    forall i :: 0 <= i < |sent| ==> tokens[i].pref == Named(sent[i].key) && tokens[i].value == sent[i].value
  }

  lemma {:induction false} GatheredOneEach<T>(parts: seq<string>, keep: string -> seq<T>, items: seq<T>, n: nat)
    requires n <= |parts| == |items| && forall i :: 0 <= i < |parts| ==> keep(parts[i]) == [items[i]]
    ensures Gathered(parts, keep, n) == items[..n]
  {
    if n > 0 {
      GatheredOneEach(parts, keep, items, n - 1);
      assert items[..n] == items[..n - 1] + [items[n - 1]];
    }
  }

  /** Preferences sent in one header line, with any white space around them, are its tokens in order. */
  lemma HeaderReads(sent: seq<Sent>)
    requires sent != [] && forall i :: 0 <= i < |sent| ==> Sendable(sent[i])
    ensures TokensOf(Tokens([Join(Printed(sent))], 1), sent)
  {
    var parts := Printed(sent);
    var tokens := seq(|sent|, i requires 0 <= i < |sent| => Token(Named(sent[i].key), sent[i].value, Core(sent[i])));
    forall i | 0 <= i < |parts| ensures ',' !in parts[i] && Kept(parts[i]) == [tokens[i]] {
      PrintNoComma(sent[i]);
      PrintReads(sent[i]);
    }
    SplitCommaJoin(parts);
    GatheredOneEach(parts, Kept, tokens, |sent|);
    OneLine(Join(parts), parts);
    assert tokens[..|sent|] == tokens;
  }

  lemma OneLine(line: string, parts: seq<string>)
    requires SplitComma(line) == parts
    ensures Tokens([line], 1) == Trimmed(parts, |parts|)
  {
    assert Tokens([line], 0) == [];
    assert [] + Trimmed(parts, |parts|) == Trimmed(parts, |parts|);
  }

  // ----- values -----

  function Digits(s: string, acc: int): Option<int> {
    if s == [] then Some(acc)
    else if '0' <= s[0] <= '9' then Digits(s[1..], acc * 10 + (s[0] as int - '0' as int))
    else None
  }

  /** A signed decimal number that fits 64 bits. */
  function ParseInt(s: string): Option<int> {
    var signed := s != [] && (s[0] == '-' || s[0] == '+');
    var digits := if signed then s[1..] else s;
    var n := Digits(digits, 0);
    if digits == [] || n.None? then None
    else
      var v := if signed && s[0] == '-' then -n.value else n.value;
      if -0x8000_0000_0000_0000 <= v < 0x8000_0000_0000_0000 then Some(v) else None
  }

  function Decimal(n: nat): string {
    (if n < 10 then [] else Decimal(n / 10)) + [('0' as int + n % 10) as char]
  }

  lemma {:induction false} DigitsAppend(s: string, c: char, acc: int)
    requires '0' <= c <= '9'
    ensures var n := Digits(s, acc);
            Digits(s + [c], acc) == if n.None? then None else Some(n.value * 10 + (c as int - '0' as int))
  {
    if s == [] {
      assert s + [c] == [c] && [c][1..] == [];
      assert Digits([], acc * 10 + (c as int - '0' as int)) == Some(acc * 10 + (c as int - '0' as int));
    } else {
      assert (s + [c])[1..] == s[1..] + [c];
      if '0' <= s[0] <= '9' {
        DigitsAppend(s[1..], c, acc * 10 + (s[0] as int - '0' as int));
      }
    }
  }

  lemma {:induction false} DecimalDigits(n: nat)
    ensures Digits(Decimal(n), 0) == Some(n) && Decimal(n) != [] && '0' <= Decimal(n)[0] <= '9'
  {
    var c := ('0' as int + n % 10) as char;
    if n < 10 {
      assert Decimal(n) == [] + [c];
      DigitsAppend([], c, 0);
    } else {
      DecimalDigits(n / 10);
      DigitsAppend(Decimal(n / 10), c, 0);
    }
  }

  /** The decimal text of a number is read as that number if it fits 64 bits. */
  lemma DecimalReads(n: nat)
    ensures ParseInt(Decimal(n)) == if n < 0x8000_0000_0000_0000 then Some(n as int) else None
  {
    DecimalDigits(n);
  }

  lemma NegativeReads(n: nat)
    ensures ParseInt("-" + Decimal(n)) == if n <= 0x8000_0000_0000_0000 then Some(0 - n as int) else None
  {
    DecimalDigits(n);
    var m := "-" + Decimal(n);
    assert m[0] == '-' && m[1..] == Decimal(n);
  }

  /** Whether a preference takes this value; `zone` says which time zones exist. */
  predicate Valid(zone: string -> bool, p: Pref, v: string) {
    match p
    case Return => v in ["minimal", "headers-only", "representation"]
    case Count => v in ["exact", "planned", "estimated"]
    case Resolution => v in ["merge-duplicates", "ignore-duplicates"]
    case Missing => v in ["default", "null"]
    case Tx => v in ["commit", "rollback"]
    case Handling => v in ["strict", "lenient"]
    case MaxAffect => ParseInt(v).Some? && ParseInt(v).value >= 0
    case Timezone => v != "" && zone(v)
  }

  /** The settings that are words, name and value. */
  const SETTINGS: seq<(string, string)> := [
    ("return", "minimal"), ("return", "headers-only"), ("return", "representation"),
    ("count", "exact"), ("count", "planned"), ("count", "estimated"),
    ("resolution", "merge-duplicates"), ("resolution", "ignore-duplicates"),
    ("missing", "default"), ("missing", "null"),
    ("tx", "commit"), ("tx", "rollback"),
    ("handling", "strict"), ("handling", "lenient")]

  /** Of the named preferences, all but the bound and the time zone take exactly these words. */
  lemma SettingsMean(zone: string -> bool, p: Pref, v: string)
    ensures p != MaxAffect && p != Timezone ==> (Valid(zone, p, v) <==> (Name(p), v) in SETTINGS)
  {
  }

  // ----- what the header says, by first tokens -----

  /** The value of the first token of a preference. */
  function First(tokens: seq<Token>, p: Pref): Option<string> {
    if tokens == [] then None
    else
      var before := First(tokens[..|tokens| - 1], p);
      if before.Some? then before
      else if tokens[|tokens| - 1].pref == Some(p) then Some(tokens[|tokens| - 1].value)
      else None
  }

  /** The accepted value: the first one, when it is valid; a later one never stands in for it. */
  function Accepted(zone: string -> bool, tokens: seq<Token>, p: Pref): Option<string> {
    var v := First(tokens, p);
    if v.Some? && Valid(zone, p, v.value) then v else None
  }

  predicate Strict(zone: string -> bool, tokens: seq<Token>) {
    Accepted(zone, tokens, Handling) == Some("strict")
  }

  /** A token is rejected under strict handling when it names no preference, or is the first of one with a bad value. */
  predicate Offends(zone: string -> bool, before: seq<Token>, tok: Token) {
    var p := tok.pref;
    p.None? || (First(before, p.value).None? && !Valid(zone, p.value, tok.value))
  }

  function Offenders(zone: string -> bool, tokens: seq<Token>): seq<string> {
    if tokens == [] then []
    else
      var init, t := tokens[..|tokens| - 1], tokens[|tokens| - 1];
      Offenders(zone, init) + if Offends(zone, init, t) then [t.text] else []
  }

  function MaxAffected(zone: string -> bool, tokens: seq<Token>): Option<int> {
    var v := Accepted(zone, tokens, MaxAffect);
    if Strict(zone, tokens) && v.Some? then ParseInt(v.value) else None
  }

  function TxOf(v: Option<string>): Option<TxMode> {
    match v
    case Some("commit") => Some(TxCommit)
    case Some(_) => Some(TxRollback)
    case None => None
  }

  function ClientTx(zone: string -> bool, tokens: seq<Token>): Option<TxMode> { TxOf(Accepted(zone, tokens, Tx)) }

  predicate Overridable(policy: TxEnd) { policy == EndCommitAllowOverride || policy == EndRollbackAllowOverride }

  predicate EndsInRollback(policy: TxEnd) { policy == EndRollback || policy == EndRollbackAllowOverride }

  /** The outcome the policy and the header settle on: only an override policy listens to the client. */
  function Outcome(zone: string -> bool, tokens: seq<Token>, policy: TxEnd): TxMode {
    var client := ClientTx(zone, tokens);
    if Overridable(policy) && client.Some? then client.value
    else if EndsInRollback(policy) then TxRollback
    else TxCommit
  }

  /** What strict handling rejects: an offending token, or a tx token under a fixed policy. */
  predicate StrictlyRefused(zone: string -> bool, tokens: seq<Token>, policy: TxEnd) {
    Strict(zone, tokens) && (Offenders(zone, tokens) != [] || (!Overridable(policy) && ClientTx(zone, tokens).Some?))
  }

  lemma FirstWith(tokens: seq<Token>, tok: Token, p: Pref)
    ensures First(tokens + [tok], p) ==
            if First(tokens, p).Some? then First(tokens, p) else if tok.pref == Some(p) then Some(tok.value) else None
  {
    assert (tokens + [tok])[..|tokens|] == tokens;
  }

  /** Token `i` is the first of its preference. */
  predicate Earliest(tokens: seq<Token>, p: Pref, i: nat) {
    i < |tokens| && tokens[i].pref == Some(p) && forall j :: 0 <= j < i ==> tokens[j].pref != Some(p)
  }

  lemma {:induction false} FirstNone(tokens: seq<Token>, p: Pref)
    ensures First(tokens, p).None? <==> forall i :: 0 <= i < |tokens| ==> tokens[i].pref != Some(p)
  {
    if tokens != [] {
      var n := |tokens| - 1;
      var init := tokens[..n];
      FirstNone(init, p);
      assert forall i :: 0 <= i < n ==> init[i] == tokens[i];
    }
  }

  lemma {:induction false} FirstAt(tokens: seq<Token>, p: Pref, i: nat)
    requires Earliest(tokens, p, i)
    ensures First(tokens, p) == Some(tokens[i].value)
  {
    var n := |tokens| - 1;
    var init := tokens[..n];
    assert forall j :: 0 <= j < n ==> init[j] == tokens[j];
    if i < n {
      FirstAt(init, p, i);
    } else {
      FirstNone(init, p);
    }
  }

  /** `First` is the value of the earliest token of the preference, and None exactly when there is none. */
  lemma FirstIsEarliest(tokens: seq<Token>, p: Pref)
    ensures First(tokens, p).None? <==> forall i :: 0 <= i < |tokens| ==> tokens[i].pref != Some(p)
    ensures forall i: nat :: Earliest(tokens, p, i) ==> First(tokens, p) == Some(tokens[i].value)
  {
    FirstNone(tokens, p);
    forall i: nat | Earliest(tokens, p, i) ensures First(tokens, p) == Some(tokens[i].value) { FirstAt(tokens, p, i); }
  }

  /** A token may stand before or after any tokens of other preferences. */
  lemma {:induction false} FirstMoves(before: seq<Token>, tok: Token, after: seq<Token>, p: Pref)
    requires forall i :: 0 <= i < |after| ==> after[i].pref != tok.pref
    ensures First(before + [tok] + after, p) == First(before + after + [tok], p)
  {
    if after == [] {
      assert before + [tok] + after == before + after + [tok];
    } else {
      var init, t := after[..|after| - 1], after[|after| - 1];
      FirstMoves(before, tok, init, p);
      assert before + [tok] + after == (before + [tok] + init) + [t];
      assert before + after == (before + init) + [t];
      FirstWith(before + [tok] + init, t, p);
      FirstWith(before + init, tok, p);
      FirstWith(before + init, t, p);
      FirstWith(before + after, tok, p);
    }
  }

  lemma AcceptedMoves(zone: string -> bool, before: seq<Token>, tok: Token, after: seq<Token>, p: Pref)
    requires forall i :: 0 <= i < |after| ==> after[i].pref != tok.pref
    ensures Accepted(zone, before + [tok] + after, p) == Accepted(zone, before + after + [tok], p)
  {
    FirstMoves(before, tok, after, p);
  }

  /** So the handling token decides, and the outcome is settled, wherever the tokens of other preferences stand. */
  lemma PlaceDoesNotMatter(zone: string -> bool, before: seq<Token>, tok: Token, after: seq<Token>, policy: TxEnd)
    requires forall i :: 0 <= i < |after| ==> after[i].pref != tok.pref
    ensures var x, y := before + [tok] + after, before + after + [tok];
            && Strict(zone, x) == Strict(zone, y)
            && MaxAffected(zone, x) == MaxAffected(zone, y)
            && Outcome(zone, x, policy) == Outcome(zone, y, policy)
  {
    AcceptedMoves(zone, before, tok, after, Handling);
    AcceptedMoves(zone, before, tok, after, MaxAffect);
    AcceptedMoves(zone, before, tok, after, Tx);
  }

  /**
  An override policy honors the earliest tx token, at `i`, when it is valid; otherwise, as when there is
  none (`i` is the length), the policy decides alone.
  */
  lemma OutcomeByEarliest(zone: string -> bool, tokens: seq<Token>, policy: TxEnd, i: nat)
    requires i <= |tokens| && forall j :: 0 <= j < i ==> tokens[j].pref != Some(Tx)
    requires i < |tokens| ==> tokens[i].pref == Some(Tx)
    ensures Outcome(zone, tokens, policy) ==
            if Overridable(policy) && i < |tokens| && tokens[i].value == "commit" then TxCommit
            else if Overridable(policy) && i < |tokens| && tokens[i].value == "rollback" then TxRollback
            else if EndsInRollback(policy) then TxRollback
            else TxCommit
  {
    FirstIsEarliest(tokens, Tx);
    assert i < |tokens| ==> Earliest(tokens, Tx, i);
    assert First(tokens, Tx) == if i < |tokens| then Some(tokens[i].value) else None;
  }

  /** Handling is strict exactly when the earliest handling token says so, and only then does a bound hold. */
  lemma BoundByEarliest(zone: string -> bool, tokens: seq<Token>, h: nat, m: nat, n: nat)
    requires Earliest(tokens, Handling, h)
    ensures Strict(zone, tokens) <==> tokens[h].value == "strict"
    ensures Earliest(tokens, MaxAffect, m) && tokens[m].value == Decimal(n) && n < 0x8000_0000_0000_0000 ==>
              MaxAffected(zone, tokens) == if tokens[h].value == "strict" then Some(n) else None
  {
    FirstAt(tokens, Handling, h);
    if Earliest(tokens, MaxAffect, m) {
      FirstAt(tokens, MaxAffect, m);
      DecimalReads(n);
    }
  }

  // ----- what the parser's collections hold after some tokens -----

  ghost predicate SeenIs(tokens: seq<Token>, seen: set<Pref>) {
    forall p :: p in seen <==> First(tokens, p).Some?
  }

  ghost predicate ValuesAre(zone: string -> bool, tokens: seq<Token>, values: map<Pref, string>) {
    forall p :: Accepted(zone, tokens, p) == Value(values, p)
  }

  ghost predicate Holds(zone: string -> bool, tokens: seq<Token>, seen: set<Pref>, values: map<Pref, string>,
                        invalid: seq<string>) {
    SeenIs(tokens, seen) && ValuesAre(zone, tokens, values) && invalid == Offenders(zone, tokens)
  }

  function Value(values: map<Pref, string>, p: Pref): Option<string> { if p in values then Some(values[p]) else None }

  lemma SeenWith(tokens: seq<Token>, tok: Token, seen: set<Pref>)
    requires SeenIs(tokens, seen)
    ensures SeenIs(tokens + [tok], if tok.pref.Some? then seen + {tok.pref.value} else seen)
  {
    forall p ensures First(tokens + [tok], p).Some? <==> First(tokens, p).Some? || tok.pref == Some(p) {
      FirstWith(tokens, tok, p);
    }
  }

  lemma ValuesWith(zone: string -> bool, tokens: seq<Token>, tok: Token, values: map<Pref, string>)
    requires ValuesAre(zone, tokens, values)
    ensures var p, v := tok.pref, tok.value;
            var taken := p.Some? && First(tokens, p.value).None? && Valid(zone, p.value, v);
            ValuesAre(zone, tokens + [tok], if taken then values[p.value := v] else values)
  {
    forall p ensures Accepted(zone, tokens + [tok], p) ==
                     if tok.pref == Some(p) && First(tokens, p).None? && Valid(zone, p, tok.value) then Some(tok.value)
                     else Accepted(zone, tokens, p)
    {
      FirstWith(tokens, tok, p);
    }
  }

  /** What one more token does to the three running collections. */
  lemma HoldsWith(zone: string -> bool, tokens: seq<Token>, tok: Token, seen: set<Pref>, values: map<Pref, string>,
                  invalid: seq<string>)
    requires Holds(zone, tokens, seen, values, invalid)
    ensures var p, v := tok.pref, tok.value;
            if p.None? then Holds(zone, tokens + [tok], seen, values, invalid + [tok.text])
            else if p.value in seen then Holds(zone, tokens + [tok], seen, values, invalid)
            else if Valid(zone, p.value, v) then
              Holds(zone, tokens + [tok], seen + {p.value}, values[p.value := v], invalid)
            else Holds(zone, tokens + [tok], seen + {p.value}, values, invalid + [tok.text])
  {
    assert (tokens + [tok])[..|tokens|] == tokens;
    SeenWith(tokens, tok, seen);
    ValuesWith(zone, tokens, tok, values);
    assert tok.pref.Some? && tok.pref.value in seen ==> seen + {tok.pref.value} == seen;
    assert invalid + [] == invalid;
  }

  lemma HoldsAtFirst(zone: string -> bool)
    ensures Holds(zone, [], {}, map[], [])
  {
  }

  lemma HoldsAt(zone: string -> bool, tokens: seq<Token>, seen: set<Pref>, values: map<Pref, string>,
                invalid: seq<string>)
    requires Holds(zone, tokens, seen, values, invalid)
    ensures Strict(zone, tokens) == (Value(values, Handling) == Some("strict"))
    ensures ClientTx(zone, tokens) == TxOf(Value(values, Tx))
    ensures Strict(zone, tokens) ==>
              MaxAffected(zone, tokens) == if MaxAffect in values then ParseInt(values[MaxAffect]) else None
  {
    assert Accepted(zone, tokens, Handling) == Value(values, Handling);
    assert Accepted(zone, tokens, Tx) == Value(values, Tx);
    assert Accepted(zone, tokens, MaxAffect) == Value(values, MaxAffect);
  }

  /** The text a preference is echoed as. */
  function Echo(p: Pref, v: string): string { Name(p) + "=" + v }

  // ----- the parsed set, updated in place -----

  class PreferSet {
    var values: map<Pref, string>  // the accepted value of each preference
    var handlingStrict: bool
    var tx: Option<TxMode>
    var maxAffected: Option<int>
    var applied: map<Pref, string>
    var invalid: seq<string>

    constructor ()
      ensures values == map[] && !handlingStrict && tx == None && maxAffected == None && applied == map[] &&
                invalid == []
    {
      values, handlingStrict, tx, maxAffected, applied, invalid := map[], false, None, None, map[], [];
    }

    /** The typed fields are those the accepted values spell. */
    ghost predicate Spelled()
      reads this`values, this`handlingStrict, this`tx, this`maxAffected
    {
      && handlingStrict == (Value(values, Handling) == Some("strict"))
      && tx == TxOf(Value(values, Tx))
      && maxAffected == (if MaxAffect in values then ParseInt(values[MaxAffect]) else None)
    }

    /** Every accepted value is echoed. */
    ghost predicate Echoed()
      reads this`values, this`applied
    {
      applied.Keys == values.Keys && forall p :: p in applied ==> applied[p] == Echo(p, values[p])
    }

    ghost predicate Typed()
      reads this
    {
      Spelled() && Echoed()
    }

    /** Every field is the one the first tokens settle. */
    ghost predicate Means(zone: string -> bool, tokens: seq<Token>)
      reads this
    {
      && handlingStrict == Strict(zone, tokens)
      && tx == ClientTx(zone, tokens)
      && maxAffected == MaxAffected(zone, tokens)
      && invalid == Offenders(zone, tokens)
      && (forall p :: p in applied <==> Accepted(zone, tokens, p).Some? && (p == MaxAffect ==> handlingStrict))
      && (forall p :: p in applied ==> applied[p] == Echo(p, Accepted(zone, tokens, p).value))
    }

    /** Applies one recognized preference; a bad value leaves the fields alone. */
    method Set(zone: string -> bool, p: Pref, v: string) returns (ok: bool)
      requires Spelled()
      modifies this`values, this`handlingStrict, this`tx, this`maxAffected
      ensures Spelled() && ok == Valid(zone, p, v) && values == if ok then old(values)[p := v] else old(values)
    {
      ok := Valid(zone, p, v);
      if ok {
        values := values[p := v];
        if p == Handling {
          handlingStrict := v == "strict";
        } else if p == Tx {
          tx := Some(if v == "commit" then TxCommit else TxRollback);
        } else if p == MaxAffect {
          maxAffected := ParseInt(v);
        }
      }
    }

    /** One token: an unknown preference or a bad first value is recorded, a later value is passed over. */
    method Consider(zone: string -> bool, tok: Token, seen: set<Pref>, ghost tokens: seq<Token>)
      returns (seen': set<Pref>)
      requires Typed() && Holds(zone, tokens, seen, values, invalid)
      modifies this
      ensures Typed() && Holds(zone, tokens + [tok], seen', values, invalid)
    {
      HoldsWith(zone, tokens, tok, seen, values, invalid);
      seen' := seen;
      if tok.pref.None? {
        invalid := invalid + [tok.text];
        return;
      }
      var p := tok.pref.value;
      if p in seen {
        return;
      }
      seen' := seen + {p};
      var ok := Take(zone, p, tok.value);
      if !ok {
        invalid := invalid + [tok.text];
      }
    }

    /** A valid value is set and echoed, which keeps the typed fields in step. */
    method Take(zone: string -> bool, p: Pref, v: string) returns (ok: bool)
      requires Typed()
      modifies this`values, this`handlingStrict, this`tx, this`maxAffected, this`applied
      ensures Typed() && ok == Valid(zone, p, v) && values == if ok then old(values)[p := v] else old(values)
    {
      ok := Set(zone, p, v);
      if ok {
        applied := applied[p := Echo(p, v)];
      }
    }

    /** One piece between commas. */
    method Piece(zone: string -> bool, part: string, seen: set<Pref>, ghost tokens: seq<Token>)
      returns (seen': set<Pref>)
      requires Typed() && Holds(zone, tokens, seen, values, invalid)
      modifies this
      ensures Typed() && Holds(zone, tokens + Kept(part), seen', values, invalid)
    {
      seen' := seen;
      var tok := Trim(part);
      if tok == "" {
        assert tokens + [] == tokens;
      } else {
        seen' := Consider(zone, Read(tok), seen, tokens);
      }
    }

    /** One header line, piece by piece. */
    method Line(zone: string -> bool, parts: seq<string>, seen: set<Pref>, ghost tokens: seq<Token>)
      returns (seen': set<Pref>)
      requires Typed() && Holds(zone, tokens, seen, values, invalid)
      modifies this
      ensures Typed() && Holds(zone, tokens + Trimmed(parts, |parts|), seen', values, invalid)
    {
      seen' := seen;
      assert tokens + [] == tokens;
      for j := 0 to |parts|
        invariant Typed() && Holds(zone, tokens + Trimmed(parts, j), seen', values, invalid)
      {
        TrimmedNext(tokens, parts, j);
        seen' := Piece(zone, parts[j], seen', tokens + Trimmed(parts, j));
      }
    }

    /** Without strict handling the bound is neither kept nor echoed. */
    method DropLenientBound()
      requires Typed()
      modifies this`applied, this`maxAffected
      ensures maxAffected == if handlingStrict then old(maxAffected) else None
      ensures forall p :: p in applied <==> p in values && (p == MaxAffect ==> handlingStrict)
      ensures forall p :: p in applied ==> applied[p] == Echo(p, values[p])
    {
      if !handlingStrict {
        applied := applied - {MaxAffect};
        maxAffected := None;
      }
    }

    /** The whole header: every field is settled by first tokens, and the bound is kept only under strict handling. */
    method Parse(zone: string -> bool, headers: seq<string>)
      requires values == map[] && !handlingStrict && tx == None && maxAffected == None && applied == map[] &&
                 invalid == []
      modifies this
      ensures Means(zone, Tokens(headers, |headers|))
    {
      var seen: set<Pref> := {};
      HoldsAtFirst(zone);
      for i := 0 to |headers|
        invariant Typed() && Holds(zone, Tokens(headers, i), seen, values, invalid)
      {
        seen := Line(zone, SplitComma(headers[i]), seen, Tokens(headers, i));
      }
      DropLenientBound();
      HoldsAt(zone, Tokens(headers, |headers|), seen, values, invalid);
    }

    /**
    Settles the transaction mode by the server's policy. What the first tokens stand for decides: the mode is rollback
    exactly when that is their outcome, a tx token is echoed only under an override policy, and a strict request is
    rejected exactly when it carries an offender or a tx token that the policy does not allow.
    */
    method ResolveTx(policy: TxEnd, ghost zone: string -> bool, ghost tokens: seq<Token>)
      requires Means(zone, tokens)
      modifies this`tx, this`applied, this`invalid
      ensures tx == Some(TxRollback) <==> Outcome(zone, tokens, policy) == TxRollback
      ensures Rejected() <==> StrictlyRefused(zone, tokens, policy)
      ensures forall p :: p in applied <==>
                && Accepted(zone, tokens, p).Some? && (p == MaxAffect ==> handlingStrict)
                && (p == Tx ==> Overridable(policy))
    {
      assert Tx in applied <==> Accepted(zone, tokens, Tx).Some?;
      if !Overridable(policy) {
        if Tx in applied {
          if handlingStrict {
            invalid := invalid + [applied[Tx]];
          }
          applied := applied - {Tx};
        }
        tx := if policy == EndRollback then Some(TxRollback) else None;
        return;
      }
      if Tx !in applied {
        tx := if policy == EndRollbackAllowOverride then Some(TxRollback) else None;
      }
    }

    predicate Rejected()
      reads this
    {
      handlingStrict && invalid != []
    }
  }
}
