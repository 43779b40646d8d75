/**
Bearer-token authentication (auth/auth.go) with and without the verified-token cache.

Signature work is a deterministic function of the raw token, `decode`; reading the role claim
is a function of the claim set, `roleOf`. Each clock reading is a parameter.
*/
module Authentication {
  import opened Wrappers
  import opened Json
  import S = Sieve
  import TokenCache

  datatype Error =
    | EmptyToken
    | SecretMissing
    | DecodeFailed(message: string)
    | ClaimRejected(message: string)
    | IdentityRequired
    | RoleNotAllowed(role: string)

  datatype Identity = Identity(role: string, claims: Option<Claims>, anonymous: bool)

  type Outcome = Result<Identity, Error>

  datatype Verifier = Verifier(
    hasKeys: bool,
    audience: string,
    anonRole: string,
    permitted: set<string>,
    skew: int,
    capacity: int,
    decode: string -> Result<Claims, Error>,
    roleOf: Claims -> Option<string>)

  // ----- the Authorization header -----

  predicate Blank(c: char) { c == ' ' || c == '\t' }

  function Lower(c: char): char {
    if 'A' <= c <= 'Z' then (c as int + 32) as char else c
  }

  predicate EqualFold(a: string, b: string) {
    |a| == |b| && forall i :: 0 <= i < |a| ==> Lower(a[i]) == Lower(b[i])
  }

  function SkipBlanks(s: string): string {
    if s != [] && Blank(s[0]) then SkipBlanks(s[1..]) else s
  }

  function SchemeEnd(s: string): (n: nat)
    ensures n <= |s|
  {
    if s == [] || Blank(s[0]) then 0 else 1 + SchemeEnd(s[1..])
  }

  /** The bearer token, possibly empty, or None when the credentials use another scheme. */
  function Bearer(header: string): Option<string> {
    var n := SchemeEnd(header);
    if !EqualFold(header[..n], "Bearer") then None
    else Some(if n == |header| then "" else SkipBlanks(header[n + 1..]))
  }

  /** `Bearer` in any mix of cases. */
  predicate BearerScheme(s: string) {
    && |s| == 6 && s[0] in {'b', 'B'} && s[1] in {'e', 'E'} && s[2] in {'a', 'A'} && s[3] in {'r', 'R'}
    && s[4] in {'e', 'E'} && s[5] in {'r', 'R'}
  }

  lemma FoldsToBearer(s: string)
    ensures EqualFold(s, "Bearer") <==> BearerScheme(s)
  {
    var b := "Bearer";
    assert b[0] == 'B' && b[1] == 'e' && b[2] == 'a' && b[3] == 'r' && b[4] == 'e' && b[5] == 'r';
  }

  predicate NoBlanks(s: string) { forall i :: 0 <= i < |s| ==> !Blank(s[i]) }

  predicate Blanks(s: string) { forall i :: 0 <= i < |s| ==> Blank(s[i]) }

  lemma {:induction false} SchemeEnds(scheme: string, rest: string)
    requires NoBlanks(scheme) && (rest == "" || Blank(rest[0]))
    ensures SchemeEnd(scheme + rest) == |scheme|
  {
    if scheme == [] {
      assert scheme + rest == rest;
    } else {
      assert (scheme + rest)[1..] == scheme[1..] + rest;
      SchemeEnds(scheme[1..], rest);
    }
  }

  lemma {:induction false} BlanksSkipped(blanks: string, token: string)
    requires Blanks(blanks) && (token == "" || !Blank(token[0]))
    ensures SkipBlanks(blanks + token) == token
  {
    if blanks == [] {
      assert blanks + token == token;
    } else {
      assert (blanks + token)[1..] == blanks[1..] + token;
      BlanksSkipped(blanks[1..], token);
    }
  }

  /** A header of a scheme, blanks and credentials: a bearer header yields its token, any other scheme nothing. */
  lemma BearerReads(scheme: string, blanks: string, token: string)
    requires NoBlanks(scheme) && Blanks(blanks) && (token == "" || (blanks != "" && !Blank(token[0])))
    ensures Bearer(scheme + (blanks + token)) == if BearerScheme(scheme) then Some(token) else None
  {
    var rest := blanks + token;
    var header := scheme + rest;
    SchemeEnds(scheme, rest);
    FoldsToBearer(scheme);
    assert header[..|scheme|] == scheme;
    if blanks != "" {
      assert header[|scheme| + 1..] == blanks[1..] + token;
      BlanksSkipped(blanks[1..], token);
    } else {
      assert header == scheme;
    }
  }

  // ----- claims -----

  function Truncate(x: real): int {
    if x >= 0.0 then x.Floor else -((-x).Floor)
  }

  /** Fractions of a second are dropped toward zero. */
  lemma TruncateMeans(x: real)
    ensures x >= 0.0 ==> Truncate(x) as real <= x < Truncate(x) as real + 1.0
    ensures x <= 0.0 ==> Truncate(x) as real - 1.0 < x <= Truncate(x) as real
  {
  }

  function PresentClaim(claims: Claims, name: string): Option<Json> {
    if name in claims && claims[name] != Null then Some(claims[name]) else None
  }

  const AudType := "The JWT 'aud' claim must be a string or an array of strings"

  predicate AudMatches(v: Verifier, aud: string) { v.audience == "" || v.audience == aud }

  /** Section 4.1.3 of RFC 7519 as the verifier reads it. */
  function CheckAud(v: Verifier, aud: Json): Option<Error> {
    match aud
    case Str(s) => if AudMatches(v, s) then None else Some(ClaimRejected("JWT not in audience"))
    case Arr(els) =>
      if exists i :: 0 <= i < |els| && !els[i].Str? then Some(ClaimRejected(AudType))
      else if els == [] || exists i :: 0 <= i < |els| && AudMatches(v, els[i].s) then None
      else Some(ClaimRejected("JWT not in audience"))
    case _ => Some(ClaimRejected(AudType))
  }

  /** The source's single pass over an audience array finds the same answer. */
  method CheckAudArray(v: Verifier, els: seq<Json>) returns (r: Option<Error>)
    ensures r == CheckAud(v, Arr(els))
  {
    var matched := |els| == 0;
    for n := 0 to |els|
      invariant forall i :: 0 <= i < n ==> els[i].Str?
      invariant matched == (els == [] || exists i :: 0 <= i < n && AudMatches(v, els[i].s))
    {
      if !els[n].Str? {
        return Some(ClaimRejected(AudType));
      }
      if AudMatches(v, els[n].s) {
        matched := true;
      }
    }
    return if matched then None else Some(ClaimRejected("JWT not in audience"));
  }

  /** A present time claim must be a number, and `bad` of its whole seconds must not hold. */
  function CheckTime(claims: Claims, name: string, bad: int -> bool, message: string): Option<Error> {
    match PresentClaim(claims, name)
    case None => None
    case Some(Num(n)) => if bad(Truncate(n)) then Some(ClaimRejected(message)) else None
    case Some(_) => Some(ClaimRejected("The JWT '" + name + "' claim must be a number"))
  }

  function OrElse(a: Option<Error>, b: Option<Error>): Option<Error> {
    if a.Some? then a else b
  }

  /** The checks in their order: exp, nbf, iat, aud. */
  function ValidateClaims(v: Verifier, claims: Claims, now: int): Option<Error> {
    OrElse(CheckTime(claims, "exp", t => now - v.skew > t, "JWT expired"),
    OrElse(CheckTime(claims, "nbf", t => now + v.skew < t, "JWT not yet valid"),
    OrElse(CheckTime(claims, "iat", t => now + v.skew < t, "JWT issued at future"),
           var aud := PresentClaim(claims, "aud");
           if aud.None? then None else CheckAud(v, aud.value))))
  }

  /** What a claim set must look like at an instant: sections 4.1.4 to 4.1.6 of RFC 7519 with the skew. */
  ghost predicate Timely(v: Verifier, claims: Claims, now: int) {
    && (forall exp :: PresentClaim(claims, "exp") == Some(exp) ==> exp.Num? && Truncate(exp.n) >= now - v.skew)
    && (forall nbf :: PresentClaim(claims, "nbf") == Some(nbf) ==> nbf.Num? && Truncate(nbf.n) <= now + v.skew)
    && (forall iat :: PresentClaim(claims, "iat") == Some(iat) ==> iat.Num? && Truncate(iat.n) <= now + v.skew)
  }

  lemma ValidatedIffTimely(v: Verifier, claims: Claims, now: int)
    ensures ValidateClaims(v, claims, now).None? <==>
            && Timely(v, claims, now)
            && (PresentClaim(claims, "aud").Some? ==> CheckAud(v, PresentClaim(claims, "aud").value).None?)
  {
    var e, n, i := PresentClaim(claims, "exp"), PresentClaim(claims, "nbf"), PresentClaim(claims, "iat");
  }

  function Resolve(v: Verifier, claims: Claims): Outcome {
    var named := v.roleOf(claims);
    if named.None? && v.anonRole == "" then Err(IdentityRequired)
    else
      var role := if named.Some? then named.value else v.anonRole;
      if role == v.anonRole || v.permitted == {} || role in v.permitted
      then Ok(Identity(role, Some(claims), false))
      else Err(RoleNotAllowed(role))
  }

  function Anonymous(v: Verifier): Outcome {
    if v.anonRole == "" then Err(IdentityRequired) else Ok(Identity(v.anonRole, None, true))
  }

  function Verify(v: Verifier, raw: string, now: int): Result<Claims, Error> {
    var claims :- v.decode(raw);
    var bad := ValidateClaims(v, claims, now);
    if bad.Some? then Err(bad.value) else Ok(claims)
  }

  /** The answer that needs no token work, if there is one. */
  function EarlyAnswer(v: Verifier, header: string): Option<Outcome> {
    var raw := Bearer(header);
    if raw.None? then Some(Anonymous(v))
    else if raw.value == "" then Some(Err(EmptyToken))
    else if !v.hasKeys then Some(Err(SecretMissing))
    else None
  }

  /** Authentication with no cache at all, at one clock reading. */
  function Uncached(v: Verifier, header: string, now: int): Outcome {
    var early := EarlyAnswer(v, header);
    if early.Some? then early.value
    else
      var claims :- Verify(v, Bearer(header).value, now);
      Resolve(v, claims)
  }

  /** The audience is absent, null, the configured one, or a list of strings that is empty or holds it. */
  ghost predicate ForAudience(v: Verifier, claims: Claims) {
    "aud" in claims ==>
      match claims["aud"]
      case Null => true
      case Str(s) => v.audience in ["", s]
      case Arr(els) =>
        && (forall e :: e in els ==> e.Str?)
        && (els == [] || v.audience == "" || Str(v.audience) in els)
      case _ => false
  }

  /** The role is the one the claims name, or the anonymous one if they name none, and the token may assume it. */
  ghost predicate MayAssume(v: Verifier, claims: Claims, role: string) {
    && (v.roleOf(claims) == Some(role) || (v.roleOf(claims).None? && role == v.anonRole != ""))
    && (role == v.anonRole || v.permitted == {} || role in v.permitted)
  }

  lemma AudienceMeans(v: Verifier, claims: Claims)
    ensures var aud := PresentClaim(claims, "aud");
            (aud.Some? ==> CheckAud(v, aud.value).None?) <==> ForAudience(v, claims)
  {
    var aud := PresentClaim(claims, "aud");
    if aud.Some? && aud.value.Arr? {
      var els := aud.value.elems;
      assert forall i :: 0 <= i < |els| ==> els[i] in els;
      if v.audience == "" && els != [] && els[0].Str? {
        assert AudMatches(v, els[0].s);
      }
    }
  }

  /** Who is let in: exactly which header yields which identity at an instant. */
  lemma AcceptedIff(v: Verifier, header: string, now: int, id: Identity)
    ensures Uncached(v, header, now) == Ok(id) <==>
            match Bearer(header)
            case None => v.anonRole != "" && id == Identity(v.anonRole, None, true)
            case Some(raw) =>
              && raw != "" && v.hasKeys && !id.anonymous && id.claims.Some? && v.decode(raw) == Ok(id.claims.value)
              && Timely(v, id.claims.value, now) && ForAudience(v, id.claims.value)
              && MayAssume(v, id.claims.value, id.role)
  {
    var raw := Bearer(header);
    if raw.Some? && v.decode(raw.value).Ok? {
      var claims := v.decode(raw.value).value;
      ValidatedIffTimely(v, claims, now);
      AudienceMeans(v, claims);
    }
  }

  /** The answers to a request without usable credentials, and what an expired token is told before anything else. */
  lemma RefusedAs(v: Verifier, header: string, now: int)
    ensures Bearer(header) == None && v.anonRole == "" ==> Uncached(v, header, now) == Err(IdentityRequired)
    ensures Bearer(header) == Some("") ==> Uncached(v, header, now) == Err(EmptyToken)
    ensures forall raw :: raw != "" && Bearer(header) == Some(raw) && !v.hasKeys ==>
              Uncached(v, header, now) == Err(SecretMissing)
    ensures forall raw, e :: raw != "" && Bearer(header) == Some(raw) && v.hasKeys && v.decode(raw) == Err(e) ==>
              Uncached(v, header, now) == Err(e)
    ensures forall raw: string, claims: Claims ::
              raw != "" && Bearer(header) == Some(raw) && v.hasKeys && v.decode(raw) == Ok(claims) && "exp" in claims &&
              claims["exp"].Num? && Truncate(claims["exp"].n) < now - v.skew ==>
                Uncached(v, header, now) == Err(ClaimRejected("JWT expired"))
  {
  }

  /** Every cached entry holds the decode of its own key. */
  ghost predicate Coherent(v: Verifier, m: S.Machine<Claims>) {
    && S.WellFormed(m, v.capacity)
    && forall i :: 0 <= i < |m.slots| ==> v.decode(m.slots[i].key) == Ok(m.slots[i].claims)
  }

  lemma HitIsDecoded(v: Verifier, m: S.Machine<Claims>, raw: string)
    requires Coherent(v, m)
    ensures Coherent(v, S.Get(m, raw).0)
    ensures S.Get(m, raw).1.Some? ==> v.decode(raw) == Ok(S.Get(m, raw).1.value)
  {
    S.GetWellFormed(m, v.capacity, raw);
  }

  lemma PutKeepsCoherent(v: Verifier, m: S.Machine<Claims>, raw: string, claims: Claims)
    requires Coherent(v, m) && v.decode(raw) == Ok(claims)
    ensures Coherent(v, S.Put(m, v.capacity, raw, claims))
  {
    S.PutWellFormed(m, v.capacity, raw, claims);
    var after := S.Put(m, v.capacity, raw, claims);
    forall i | 0 <= i < |after.slots|
      ensures v.decode(after.slots[i].key) == Ok(after.slots[i].claims)
    {
      S.PutOrigin(m, v.capacity, raw, claims, i);
    }
  }

  // ----- one request at a time, on the linked cache -----

  /** A request against the cache answers as if there were none. */
  method Authenticate(v: Verifier, cache: TokenCache.Cache<Claims>, header: string, now: int) returns (r: Outcome)
    requires cache.Valid() && cache.capacity == v.capacity && Coherent(v, cache.abs)
    modifies cache, cache.repr
    ensures cache.Valid() && Coherent(v, cache.abs) && fresh(cache.repr - old(cache.repr))
    ensures r == Uncached(v, header, now)
  {
    var early := EarlyAnswer(v, header);
    if early.Some? {
      return early.value;
    }
    var raw := Bearer(header).value;
    HitIsDecoded(v, cache.abs, raw);
    var hit := cache.Get(raw);
    if hit.Some? {
      var bad := ValidateClaims(v, hit.value, now);
      return if bad.Some? then Err(bad.value) else Resolve(v, hit.value);
    }
    var verified := Verify(v, raw, now);
    if verified.Err? {
      return Err(verified.error);
    }
    PutKeepsCoherent(v, cache.abs, raw, verified.value);
    cache.Put(raw, verified.value);
    return Resolve(v, verified.value);
  }

  // ----- every interleaving of concurrent requests -----

  /** Where a request stands; each phase ends at a cache operation or a clock reading. */
  datatype Phase =
    | Arrived(header: string)
    | Hit(header: string, claims: Claims)
    | Missed(header: string)
    | Verified(header: string, claims: Claims, now: int)
    | Done(header: string, now: int, outcome: Outcome)

  datatype State = State(cache: S.Machine<Claims>, requests: map<nat, Phase>)

  /** The scheduler's choices: a new request, or one request's next step with the clock it would read. */
  datatype Event = Arrive(id: nat, header: string) | Advance(id: nat, now: int)

  /** One request's next step. Only `Get` and `Put` touch the cache, each atomically. */
  function Act(v: Verifier, m: S.Machine<Claims>, p: Phase, now: int): (S.Machine<Claims>, Phase)
    requires m.hand.Some? ==> m.hand.value < |m.slots|
  {
    match p
    case Arrived(h) =>
      var early := EarlyAnswer(v, h);
      if early.Some? then (m, Done(h, now, early.value))
      else if v.capacity <= 0 then (m, Missed(h))
      else
        var (m', hit) := S.Get(m, Bearer(h).value);
        (m', if hit.Some? then Hit(h, hit.value) else Missed(h))
    case Hit(h, claims) =>
      var bad := ValidateClaims(v, claims, now);
      (m, Done(h, now, if bad.Some? then Err(bad.value) else Resolve(v, claims)))
    case Missed(h) =>
      if Bearer(h).None? then (m, p)
      else
        var verified := Verify(v, Bearer(h).value, now);
        (m, if verified.Err? then Done(h, now, Err(verified.error)) else Verified(h, verified.value, now))
    case Verified(h, claims, t) =>
      if Bearer(h).None? then (m, p)
      else
        var cached := if v.capacity <= 0 then m else S.Put(m, v.capacity, Bearer(h).value, claims);
        (cached, Done(h, t, Resolve(v, claims)))
    case Done(_, _, _) => (m, p)
  }

  function Next(v: Verifier, s: State, e: Event): State
    requires s.cache.hand.Some? ==> s.cache.hand.value < |s.cache.slots|
  {
    match e
    case Arrive(id, header) =>
      if id in s.requests then s else s.(requests := s.requests[id := Arrived(header)])
    case Advance(id, now) =>
      if id !in s.requests then s
      else
        var (cache, phase) := Act(v, s.cache, s.requests[id], now);
        State(cache, s.requests[id := phase])
  }

  /** What a request in flight already knows. */
  ghost predicate PhaseInv(v: Verifier, p: Phase) {
    match p
    case Arrived(_) => true
    case Hit(h, claims) => EarlyAnswer(v, h).None? && v.decode(Bearer(h).value) == Ok(claims)
    case Missed(h) => EarlyAnswer(v, h).None?
    case Verified(h, claims, t) => EarlyAnswer(v, h).None? && Verify(v, Bearer(h).value, t) == Ok(claims)
    case Done(h, t, outcome) => outcome == Uncached(v, h, t)
  }

  ghost predicate Inv(v: Verifier, s: State) {
    Coherent(v, s.cache) && forall id :: id in s.requests ==> PhaseInv(v, s.requests[id])
  }

  lemma ActKeepsInv(v: Verifier, m: S.Machine<Claims>, p: Phase, now: int)
    requires Coherent(v, m) && PhaseInv(v, p)
    ensures var (m', p') := Act(v, m, p, now); Coherent(v, m') && PhaseInv(v, p')
  {
    match p
    case Arrived(h) =>
      if EarlyAnswer(v, h).None? {
        HitIsDecoded(v, m, Bearer(h).value);
      }
    case Verified(h, claims, t) => PutKeepsCoherent(v, m, Bearer(h).value, claims);
    case _ =>
  }

  lemma NextKeepsInv(v: Verifier, s: State, e: Event)
    requires Inv(v, s)
    ensures Inv(v, Next(v, s, e))
  {
    if e.Advance? && e.id in s.requests {
      ActKeepsInv(v, s.cache, s.requests[e.id], e.now);
    }
  }

  ghost function Execution(v: Verifier, events: seq<Event>): (s: State)
    ensures Inv(v, s)
  {
    if events == [] then State(S.Machine([], None), map[])
    else
      var before := Execution(v, events[..|events| - 1]);
      NextKeepsInv(v, before, events[|events| - 1]);
      Next(v, before, events[|events| - 1])
  }

  /**
  In every interleaving, with every clock, a finished request got the answer it would have got with
  no cache at the instant it read the clock.
  */
  lemma CacheIsTransparent(v: Verifier, events: seq<Event>, id: nat)
    ensures var s := Execution(v, events);
            id in s.requests && s.requests[id].Done? ==>
              var d := s.requests[id]; d.outcome == Uncached(v, d.header, d.now)
  {
    assert Inv(v, Execution(v, events));
  }

  /** So no execution accepts a token outside its validity window, skew included. */
  lemma NoStaleTokenAccepted(v: Verifier, events: seq<Event>, id: nat)
    requires id in Execution(v, events).requests && Execution(v, events).requests[id].Done?
    ensures var d := Execution(v, events).requests[id];
            d.outcome.Ok? && d.outcome.value.claims.Some? ==> Timely(v, d.outcome.value.claims.value, d.now)
  {
    CacheIsTransparent(v, events, id);
    var d := Execution(v, events).requests[id];
    if d.outcome.Ok? && d.outcome.value.claims.Some? {
      ValidatedIffTimely(v, d.outcome.value.claims.value, d.now);
    }
  }
}
