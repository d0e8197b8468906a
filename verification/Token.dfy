/**
 Token verification and authorization: which claims objects are accepted at which
 instants, and which rule a refusal names. Instants are nanoseconds since the epoch.
 */
module Token {
  import opened Wrappers
  import opened Text
  import opened Fields
  import KeySet

  // ------------------------------------------------------------------- data

  /** A decoded JSON value; numbers are idealised as reals. */
  datatype Json =
    | Null
    | Bool(b: bool)
    | Number(value: real)
    | Str(text: Bytes)
    | Arr(items: seq<Json>)
    | Obj(members: map<Bytes, Json>)

  type Claims = map<Bytes, Json>

  datatype Fault =
    | Malformed | Algorithm | UnknownKid | Signature | Issuer | Audience
    | NoExpiry | Expired | NotYetValid | IssuedInFuture

  datatype Refusal = InvalidToken(fault: Fault) | MissingScope | MissingClaim(name: Bytes)

  datatype Config = Config(issuer: Bytes, audience: Bytes, algorithms: seq<Bytes>, skew: int,
                           scope: Bytes, required: seq<Bytes>)

  /** What `Config.Validate` makes sure of, as far as the decision depends on it. */
  predicate ValidConfig(cfg: Config) {
    cfg.issuer != [] && cfg.skew >= 0
  }

  /**
   What the library makes of a compact token, and what the key set says of its signature.
   `parses` is whether all of it is a compact JWS, the allowlist of algorithms aside; `claims`
   is the object the payload begins with, `whole` whether nothing follows it.
   */
  datatype Parts = Parts(alg: Option<Bytes>, parses: bool, signature: KeySet.Verdict, claims: Option<Claims>,
                         whole: bool)

  // ------------------------------------------------------------ NumericDate

  const NANOS := 1_000_000_000
  const LIMIT := 1_000_000_000_000_000.0

  /** Go's conversion to an integer type: towards zero. */
  function Truncate(x: real): int {
    if x >= 0.0 then x.Floor else -((-x).Floor)
  }

  function Clamp(f: real): real {
    if f > LIMIT then LIMIT else if f < -LIMIT then -LIMIT else f
  }

  function Seconds(f: real): int {
    Truncate(Clamp(f))
  }

  function Fraction(f: real): int {
    Truncate((Clamp(f) - Seconds(f) as real) * NANOS as real)
  }

  /** `time.Unix` of a NumericDate's whole seconds and nanoseconds. */
  function Instant(f: real): int {
    Seconds(f) * NANOS + Fraction(f)
  }

  lemma TruncateShift(x: real, n: int)
    requires (x >= 0.0 && n >= 0) || (x <= 0.0 && n <= 0)
    ensures Truncate(x + n as real) == Truncate(x) + n
  {
    if x + n as real < 0.0 {
      assert -(x + n as real) == -x + (-n) as real;
    }
  }

  /** Splitting loses nothing: the instant is the clamped date in nanoseconds, truncated. */
  lemma InstantExact(f: real)
    ensures Instant(f) == Truncate(Clamp(f) * NANOS as real)
  {
    var c, s := Clamp(f), Seconds(f);
    var rest := (c - s as real) * NANOS as real;
    assert rest + (s * NANOS) as real == c * NANOS as real;
    TruncateShift(rest, s * NANOS);
  }

  lemma TruncateMonotone(x: real, y: real)
    requires x <= y
    ensures Truncate(x) <= Truncate(y)
    ensures x - 1.0 < Truncate(x) as real < x + 1.0
  {
  }

  /**
   The conversion is monotone, stays within a nanosecond of the clamped date on either side of
   the epoch, and its seconds never leave the range of int64.
   */
  lemma InstantSound(f: real, g: real)
    ensures f <= g ==> Instant(f) <= Instant(g)
    ensures Clamp(f) * NANOS as real - 1.0 < Instant(f) as real < Clamp(f) * NANOS as real + 1.0
    ensures -1_000_000_000_000_000 <= Seconds(f) <= 1_000_000_000_000_000 && -NANOS < Fraction(f) < NANOS
  {
    InstantExact(f);
    InstantExact(g);
    TruncateMonotone(Clamp(f) * NANOS as real, Clamp(f) * NANOS as real);
    if f <= g {
      assert Clamp(f) <= Clamp(g);
      TruncateMonotone(Clamp(f) * NANOS as real, Clamp(g) * NANOS as real);
    }
  }

  /**
   With the numbers written out: up to 10^15 seconds either way the instant is the date in
   nanoseconds, its fraction cut off; beyond, it is 10^24 nanoseconds.
   */
  lemma InstantInNumbers(f: real)
    ensures 0.0 <= f <= 1_000_000_000_000_000.0 ==>
              Instant(f) as real <= f * 1_000_000_000.0 < Instant(f) as real + 1.0
    ensures -1_000_000_000_000_000.0 <= f <= 0.0 ==>
              Instant(f) as real - 1.0 < f * 1_000_000_000.0 <= Instant(f) as real
    ensures f > 1_000_000_000_000_000.0 ==> Instant(f) == 1_000_000_000_000_000_000_000_000
    ensures f < -1_000_000_000_000_000.0 ==> Instant(f) == -1_000_000_000_000_000_000_000_000
  {
    InstantExact(f);
    assert NANOS as real == 1_000_000_000.0;
    assert LIMIT * NANOS as real == 1_000_000_000_000_000_000_000_000.0;
  }

  /** The instant n is before the date, as the fraction cut off leaves it. */
  ghost predicate IsBefore(n: int, f: real) {
    if f >= 0.0 then n as real + 1.0 <= f * 1_000_000_000.0 else (n as real) < f * 1_000_000_000.0
  }

  lemma BeforeInNumbers(n: int, f: real)
    requires -1_000_000_000_000_000.0 <= f <= 1_000_000_000_000_000.0
    ensures n < Instant(f) <==> IsBefore(n, f)
  {
    InstantInNumbers(f);
  }

  // ------------------------------------------------------- registered claims

  /** `numericDate`: Ok(None) is absent, an error is present but not a number. */
  function NumericDate(c: Claims, name: Bytes): Result<Option<int>, ()> {
    if name !in c then Ok(None)
    else if !c[name].Number? then Err(())
    else Ok(Some(Instant(c[name].value)))
  }

  function TextOf(c: Claims, name: Bytes): Bytes {
    if name in c && c[name].Str? then c[name].text else []
  }

  function Contains(items: seq<Json>, text: Bytes): (found: bool)
    ensures found <==> Str(text) in items
  {
    if items == [] then false else items[0] == Str(text) || Contains(items[1..], text)
  }

  function AudienceContains(aud: Option<Json>, audience: Bytes): bool {
    match aud
    case Some(Str(s)) => s == audience
    case Some(Arr(items)) => Contains(items, audience)
    case _ => false
  }

  function Get(c: Claims, name: Bytes): Option<Json> {
    if name in c then Some(c[name]) else None
  }

  /** `verifier.registered`: the first rule broken, in the code's order, or None. */
  function Registered(cfg: Config, c: Claims, now: int): Option<Fault> {
    if TextOf(c, "iss") != cfg.issuer then Some(Issuer)
    else if !AudienceContains(Get(c, "aud"), cfg.audience) then Some(Audience)
    else
      var exp := NumericDate(c, "exp");
      if exp.Err? then Some(Malformed)
      else if exp.value.None? then Some(NoExpiry)
      else if !(now < exp.value.value + cfg.skew) then Some(Expired)
      else
        var nbf := NumericDate(c, "nbf");
        if nbf.Err? then Some(Malformed)
        else if nbf.value.Some? && now + cfg.skew < nbf.value.value then Some(NotYetValid)
        else
          var iat := NumericDate(c, "iat");
          if iat.Err? then Some(Malformed)
          else if iat.value.Some? && iat.value.value > now + cfg.skew then Some(IssuedInFuture)
          else None
  }

  // ------------------------------------------------------------ authorization

  /** `grantsScope`. */
  function GrantsScope(c: Claims, scope: Bytes): bool {
    if "scope" in c && c["scope"].Str? && scope in FieldsOf(c["scope"].text) then true
    else match Get(c, "scp")
         case Some(Str(s)) => scope in FieldsOf(s)
         case Some(Arr(items)) => Contains(items, scope)
         case _ => false
  }

  /** `nonEmpty`. */
  function NonEmpty(v: Option<Json>): bool {
    match v
    case None => false
    case Some(Null) => false
    case Some(Str(s)) => s != []
    case Some(Arr(items)) => |items| > 0
    case Some(Obj(members)) => |members| > 0
    case Some(_) => true
  }

  function FirstMissing(c: Claims, names: seq<Bytes>): Option<Bytes> {
    if names == [] then None
    else if !NonEmpty(Get(c, names[0])) then Some(names[0])
    else FirstMissing(c, names[1..])
  }

  /** `authorizer.authorize`. */
  function Authorize(cfg: Config, c: Claims): Option<Refusal> {
    if !GrantsScope(c, cfg.scope) then Some(MissingScope)
    else match FirstMissing(c, cfg.required)
         case Some(name) => Some(MissingClaim(name))
         case None => None
  }

  /** `verifier.verify`. */
  function Verified(cfg: Config, parts: Parts, now: int): Result<Claims, Refusal> {
    if parts.alg.None? || parts.alg.value == [] then Err(InvalidToken(Malformed))
    else if parts.alg.value !in cfg.algorithms then Err(InvalidToken(Algorithm))
    else if !parts.parses then Err(InvalidToken(Malformed))
    else if parts.signature.UnknownKey? then Err(InvalidToken(UnknownKid))
    else if parts.signature.BadSignature? then Err(InvalidToken(Signature))
    else if parts.claims.None? then Err(InvalidToken(Malformed))
    else
      var c := parts.claims.value;
      var fault := Registered(cfg, c, now);
      if fault.Some? then Err(InvalidToken(fault.value)) else Ok(c)
  }

  /** `verify`, then `authorize`. */
  function Decide(cfg: Config, parts: Parts, now: int): Result<Claims, Refusal> {
    match Verified(cfg, parts, now)
    case Err(refusal) => Err(refusal)
    case Ok(c) => (match Authorize(cfg, c) case Some(refusal) => Err(refusal) case None => Ok(c))
  }

  // --------------------------------------------------------------- the rules

  /** A date claim's value, when it is present and a number. */
  ghost predicate Date(c: Claims, name: Bytes, at: int) {
    name in c && c[name].Number? && at == Instant(c[name].value)
  }

  ghost predicate WellTyped(c: Claims, name: Bytes) {
    name in c ==> c[name].Number?
  }

  ghost predicate IssuerRule(cfg: Config, c: Claims) {
    Get(c, "iss") == Some(Str(cfg.issuer))
  }

  /** `aud` is the audience, or an array holding it. */
  ghost predicate AudienceRule(cfg: Config, c: Claims) {
    "aud" in c && (c["aud"] == Str(cfg.audience) || (c["aud"].Arr? && Str(cfg.audience) in c["aud"].items))
  }

  ghost predicate DatesRule(c: Claims) {
    WellTyped(c, "exp") && WellTyped(c, "nbf") && WellTyped(c, "iat")
  }

  ghost predicate ExpiryRule(cfg: Config, c: Claims, now: int) {
    exists at :: Date(c, "exp", at) && now < at + cfg.skew
  }

  ghost predicate NotAhead(cfg: Config, c: Claims, name: Bytes, now: int) {
    forall at :: Date(c, name, at) ==> at - cfg.skew <= now
  }

  /** `scope` holds the token, or `scp` does as a text or lists it. */
  ghost predicate ScopeRule(cfg: Config, c: Claims) {
    || ("scope" in c && c["scope"].Str? && HasToken(c["scope"].text, cfg.scope))
    || ("scp" in c && c["scp"].Str? && HasToken(c["scp"].text, cfg.scope))
    || ("scp" in c && c["scp"].Arr? && Str(cfg.scope) in c["scp"].items)
  }

  ghost predicate HeaderRule(cfg: Config, parts: Parts) {
    parts.alg.Some? && parts.alg.value != [] && parts.alg.value in cfg.algorithms && parts.parses
  }

  ghost predicate RegisteredRules(cfg: Config, c: Claims, now: int) {
    && IssuerRule(cfg, c) && AudienceRule(cfg, c) && DatesRule(c) && ExpiryRule(cfg, c, now)
    && NotAhead(cfg, c, "nbf", now) && NotAhead(cfg, c, "iat", now)
  }

  ghost predicate AuthorizationRules(cfg: Config, c: Claims) {
    ScopeRule(cfg, c) && forall name :: name in cfg.required ==> NonEmpty(Get(c, name))
  }

  ghost predicate Acceptable(cfg: Config, parts: Parts, now: int) {
    && HeaderRule(cfg, parts) && parts.signature.Payload? && parts.claims.Some?
    && RegisteredRules(cfg, parts.claims.value, now) && AuthorizationRules(cfg, parts.claims.value)
  }

  lemma RegisteredIff(cfg: Config, c: Claims, now: int)
    requires ValidConfig(cfg)
    ensures Registered(cfg, c, now).None? <==> RegisteredRules(cfg, c, now)
  {
    forall name | name in c && c[name].Number? ensures Date(c, name, Instant(c[name].value)) {
    }
  }

  lemma {:induction false} FirstMissingIff(c: Claims, names: seq<Bytes>)
    ensures FirstMissing(c, names).None? <==> forall name :: name in names ==> NonEmpty(Get(c, name))
    ensures FirstMissing(c, names).Some? ==>
              FirstMissing(c, names).value in names && !NonEmpty(Get(c, FirstMissing(c, names).value))
  {
    if names != [] {
      FirstMissingIff(c, names[1..]);
      assert names == [names[0]] + names[1..];
    }
  }

  lemma ScopeIff(cfg: Config, c: Claims)
    ensures GrantsScope(c, cfg.scope) <==> ScopeRule(cfg, c)
  {
    if "scope" in c && c["scope"].Str? {
      FieldsAreTokens(c["scope"].text, cfg.scope);
    }
    if "scp" in c && c["scp"].Str? {
      FieldsAreTokens(c["scp"].text, cfg.scope);
    }
  }

  lemma AuthorizeIff(cfg: Config, c: Claims)
    ensures Authorize(cfg, c).None? <==> AuthorizationRules(cfg, c)
  {
    ScopeIff(cfg, c);
    FirstMissingIff(c, cfg.required);
  }

  /** A token is accepted exactly when every rule holds. */
  lemma AcceptedIff(cfg: Config, parts: Parts, now: int)
    requires ValidConfig(cfg)
    ensures Decide(cfg, parts, now).Ok? <==> Acceptable(cfg, parts, now)
    ensures Decide(cfg, parts, now).Ok? ==> Some(Decide(cfg, parts, now).value) == parts.claims
  {
    if parts.claims.Some? {
      RegisteredIff(cfg, parts.claims.value, now);
      AuthorizeIff(cfg, parts.claims.value);
    }
  }

  // ------------------------------------------------------------ the interval

  /** The instants before which a claim keeps a token out. */
  function EarliestBy(cfg: Config, c: Claims, name: Bytes, from: Option<int>): Option<int> {
    if name in c && c[name].Number? then
      var at := Instant(c[name].value) - cfg.skew;
      if from.Some? && from.value > at then from else Some(at)
    else from
  }

  function Earliest(cfg: Config, c: Claims): Option<int> {
    EarliestBy(cfg, c, "iat", EarliestBy(cfg, c, "nbf", None))
  }

  /** Everything about a token that does not depend on the instant. */
  ghost predicate TimelessRules(cfg: Config, parts: Parts) {
    && HeaderRule(cfg, parts) && parts.signature.Payload? && parts.claims.Some?
    && IssuerRule(cfg, parts.claims.value) && AudienceRule(cfg, parts.claims.value)
    && DatesRule(parts.claims.value) && "exp" in parts.claims.value
    && AuthorizationRules(cfg, parts.claims.value)
  }

  /** The instants at which a token is accepted are one interval: from its earliest, up to its expiry plus the skew. */
  lemma AcceptedInterval(cfg: Config, parts: Parts, now: int)
    requires ValidConfig(cfg)
    ensures Decide(cfg, parts, now).Ok? <==>
            && TimelessRules(cfg, parts)
            && (var c := parts.claims.value;
                && now < Instant(c["exp"].value) + cfg.skew
                && (Earliest(cfg, c).Some? ==> Earliest(cfg, c).value <= now))
  {
    AcceptedIff(cfg, parts, now);
    if TimelessRules(cfg, parts) {
      IntervalRules(cfg, parts.claims.value, now);
    }
  }

  /** A date within 10^15 seconds either way. */
  ghost predicate Ordinary(c: Claims, name: Bytes) {
    name in c && c[name].Number? ==> -1_000_000_000_000_000.0 <= c[name].value <= 1_000_000_000_000_000.0
  }

  /** The interval by the claims' own numbers. */
  lemma AcceptedIntervalInNumbers(cfg: Config, parts: Parts, now: int)
    requires ValidConfig(cfg) && parts.claims.Some? && Ordinary(parts.claims.value, "exp")
    requires Ordinary(parts.claims.value, "nbf") && Ordinary(parts.claims.value, "iat")
    ensures var c := parts.claims.value;
            Decide(cfg, parts, now).Ok? <==>
            && TimelessRules(cfg, parts) && IsBefore(now - cfg.skew, c["exp"].value)
            && ("nbf" in c ==> !IsBefore(now + cfg.skew, c["nbf"].value))
            && ("iat" in c ==> !IsBefore(now + cfg.skew, c["iat"].value))
  {
    AcceptedInterval(cfg, parts, now);
    if TimelessRules(cfg, parts) {
      var c := parts.claims.value;
      BeforeInNumbers(now - cfg.skew, c["exp"].value);
      if "nbf" in c {
        BeforeInNumbers(now + cfg.skew, c["nbf"].value);
      }
      if "iat" in c {
        BeforeInNumbers(now + cfg.skew, c["iat"].value);
      }
    }
  }

  lemma IntervalRules(cfg: Config, c: Claims, now: int)
    requires DatesRule(c) && "exp" in c
    ensures ExpiryRule(cfg, c, now) <==> now < Instant(c["exp"].value) + cfg.skew
    ensures NotAhead(cfg, c, "nbf", now) && NotAhead(cfg, c, "iat", now) <==>
            (Earliest(cfg, c).Some? ==> Earliest(cfg, c).value <= now)
  {
    assert Date(c, "exp", Instant(c["exp"].value));
    if "nbf" in c {
      assert Date(c, "nbf", Instant(c["nbf"].value));
    }
    if "iat" in c {
      assert Date(c, "iat", Instant(c["iat"].value));
    }
  }

  /** Enlarging the skew only enlarges the interval. */
  lemma MoreSkewAcceptsMore(cfg: Config, wider: int, parts: Parts, now: int)
    requires ValidConfig(cfg) && cfg.skew <= wider && Decide(cfg, parts, now).Ok?
    ensures Decide(cfg.(skew := wider), parts, now) == Decide(cfg, parts, now)
  {
    AcceptedIff(cfg, parts, now);
    AcceptedIff(cfg.(skew := wider), parts, now);
    var c := parts.claims.value;
    var at :| Date(c, "exp", at) && now < at + cfg.skew;
    assert ExpiryRule(cfg.(skew := wider), c, now);
  }
}
