/**
 Which rule a refusal names: the rules one by one, as the code reads them, and the order it
 applies them in. A refusal is the answer of the first rule broken.
 */
module Precedence {
  import opened Wrappers
  import opened Text
  import opened Token

  datatype DateClaim = Exp | Nbf | Iat

  function NameOf(date: DateClaim): Bytes {
    match date
    case Exp => "exp"
    case Nbf => "nbf"
    case Iat => "iat"
  }

  datatype Rule =
    | NamesAlgorithm | AllowedAlgorithm | Parses | KnownKey | GoodSignature | IsObject
    | RightIssuer | RightAudience | Typed(date: DateClaim) | HasExpiry | NotExpired | NotTooEarly | NotFromFuture
    | GrantsScope | Carries(name: Bytes)

  /** What each rule asks of a token, whatever the others do. */
  ghost predicate Holds(cfg: Config, parts: Parts, now: int, rule: Rule) {
    match rule
    case NamesAlgorithm => parts.alg.Some? && parts.alg.value != []
    case AllowedAlgorithm => parts.alg.Some? && parts.alg.value in cfg.algorithms
    case Parses => parts.parses
    case KnownKey => !parts.signature.UnknownKey?
    case GoodSignature => !parts.signature.BadSignature?
    case IsObject => parts.claims.Some?
    case _ => parts.claims.Some? ==> HoldsOf(cfg, parts.claims.value, now, rule)
  }

  ghost predicate HoldsOf(cfg: Config, c: Claims, now: int, rule: Rule) {
    match rule
    case RightIssuer => IssuerRule(cfg, c)
    case RightAudience => AudienceRule(cfg, c)
    case Typed(date) => WellTyped(c, NameOf(date))
    case HasExpiry => "exp" in c
    case NotExpired => forall at :: Date(c, "exp", at) ==> now < at + cfg.skew
    case NotTooEarly => NotAhead(cfg, c, "nbf", now)
    case NotFromFuture => NotAhead(cfg, c, "iat", now)
    case GrantsScope => ScopeRule(cfg, c)
    case Carries(name) => NonEmpty(Get(c, name))
    case _ => true
  }

  function AnswerFor(rule: Rule): Refusal {
    match rule
    case NamesAlgorithm => InvalidToken(Malformed)
    case AllowedAlgorithm => InvalidToken(Algorithm)
    case Parses => InvalidToken(Malformed)
    case KnownKey => InvalidToken(UnknownKid)
    case GoodSignature => InvalidToken(Signature)
    case IsObject => InvalidToken(Malformed)
    case RightIssuer => InvalidToken(Issuer)
    case RightAudience => InvalidToken(Audience)
    case Typed(_) => InvalidToken(Malformed)
    case HasExpiry => InvalidToken(NoExpiry)
    case NotExpired => InvalidToken(Expired)
    case NotTooEarly => InvalidToken(NotYetValid)
    case NotFromFuture => InvalidToken(IssuedInFuture)
    case GrantsScope => MissingScope
    case Carries(name) => MissingClaim(name)
  }

  // ----------------------------------------------------------------- orders

  const HEADER: seq<Rule> := [NamesAlgorithm, AllowedAlgorithm, Parses]
  const SIGNATURE: seq<Rule> := [KnownKey, GoodSignature, IsObject]
  const PARTIES: seq<Rule> := [RightIssuer, RightAudience]

  function Authorization(cfg: Config): seq<Rule> {
    [GrantsScope] + Required(cfg.required)
  }

  function Required(names: seq<Bytes>): seq<Rule> {
    if names == [] then [] else [Carries(names[0])] + Required(names[1..])
  }

  /** The order of `verify`, `registered` and `authorize`: each date's type just before its value. */
  function CodeOrder(cfg: Config): seq<Rule> {
    HEADER + (SIGNATURE + (PARTIES + ([Typed(Exp), HasExpiry, NotExpired]
      + ([Typed(Nbf), NotTooEarly] + ([Typed(Iat), NotFromFuture] + Authorization(cfg))))))
  }

  /** The first rule of the list that does not hold. */
  ghost function First(rules: seq<Rule>, holds: Rule -> bool): Option<Rule> {
    if rules == [] then None
    else if !holds(rules[0]) then Some(rules[0])
    else First(rules[1..], holds)
  }

  /** The answer of the first broken rule; with none broken, the claims. */
  ghost function Answer(parts: Parts, order: seq<Rule>, holds: Rule -> bool): Result<Claims, Refusal> {
    match First(order, holds)
    case Some(rule) => Err(AnswerFor(rule))
    case None => if parts.claims.Some? then Ok(parts.claims.value) else Err(InvalidToken(Malformed))
  }

  ghost function Judge(cfg: Config, parts: Parts, now: int): Rule -> bool {
    rule => Holds(cfg, parts, now, rule)
  }

  lemma {:induction false} FirstAppend(a: seq<Rule>, b: seq<Rule>, holds: Rule -> bool)
    ensures First(a + b, holds) == if First(a, holds).Some? then First(a, holds) else First(b, holds)
  {
    if a == [] {
      assert a + b == b;
    } else {
      assert (a + b)[0] == a[0] && (a + b)[1..] == a[1..] + b;
      FirstAppend(a[1..], b, holds);
    }
  }

  lemma FirstOfTwo(a: Rule, b: Rule, holds: Rule -> bool)
    ensures First([a, b], holds) == if !holds(a) then Some(a) else if !holds(b) then Some(b) else None
  {
    assert [a, b][1..] == [b] && [b][1..] == [];
    assert First([b], holds) == if !holds(b) then Some(b) else None;
  }

  lemma FirstOfThree(a: Rule, b: Rule, c: Rule, holds: Rule -> bool)
    ensures First([a, b, c], holds) ==
            if !holds(a) then Some(a) else if !holds(b) then Some(b) else if !holds(c) then Some(c) else None
  {
    assert [a, b, c][1..] == [b, c];
    FirstOfTwo(b, c, holds);
  }

  /** `First` is what its name says: that rule is broken, and every one before it holds. */
  lemma {:induction false} FirstIsFirst(rules: seq<Rule>, holds: Rule -> bool) returns (i: nat)
    ensures First(rules, holds).None? ==> forall rule :: rule in rules ==> holds(rule)
    ensures First(rules, holds).Some? ==> i < |rules| && First(rules, holds) == Some(rules[i]) && !holds(rules[i])
                                          && forall j :: 0 <= j < i ==> holds(rules[j])
  {
    i := 0;
    if rules != [] && holds(rules[0]) {
      var k := FirstIsFirst(rules[1..], holds);
      i := k + 1;
      assert rules == [rules[0]] + rules[1..];
    }
  }

  // ---------------------------------------------------------- the code's order

  const EXPIRY: seq<Rule> := [Typed(Exp), HasExpiry, NotExpired]
  const START: seq<Rule> := [Typed(Nbf), NotTooEarly]
  const ISSUE: seq<Rule> := [Typed(Iat), NotFromFuture]

  function Else(a: Option<Rule>, b: Option<Rule>): Option<Rule> {
    if a.Some? then a else b
  }

  /** The first broken of the registered-claim rules, in the code's order. */
  ghost function FirstRegistered(holds: Rule -> bool): Option<Rule> {
    Else(First(PARTIES, holds), Else(First(EXPIRY, holds), Else(First(START, holds), First(ISSUE, holds))))
  }

  lemma CodeFirst(cfg: Config, holds: Rule -> bool)
    ensures First(CodeOrder(cfg), holds) ==
            Else(First(HEADER, holds), Else(First(SIGNATURE, holds),
                 Else(FirstRegistered(holds), First(Authorization(cfg), holds))))
  {
    var rest := Authorization(cfg);
    FirstAppend(ISSUE, rest, holds);
    FirstAppend(START, ISSUE + rest, holds);
    FirstAppend(EXPIRY, START + (ISSUE + rest), holds);
    FirstAppend(PARTIES, EXPIRY + (START + (ISSUE + rest)), holds);
    FirstAppend(SIGNATURE, PARTIES + (EXPIRY + (START + (ISSUE + rest))), holds);
    FirstAppend(HEADER, SIGNATURE + (PARTIES + (EXPIRY + (START + (ISSUE + rest)))), holds);
  }

  /** The registered-claim rules as `registered` computes them. */
  ghost predicate Computes(cfg: Config, c: Claims, now: int, holds: Rule -> bool) {
    ComputesParties(cfg, c, holds) && ComputesDates(cfg, c, now, holds)
  }

  ghost predicate ComputesParties(cfg: Config, c: Claims, holds: Rule -> bool) {
    && (holds(RightIssuer) <==> TextOf(c, "iss") == cfg.issuer)
    && (holds(RightAudience) <==> AudienceContains(Get(c, "aud"), cfg.audience))
  }

  ghost predicate ComputesDates(cfg: Config, c: Claims, now: int, holds: Rule -> bool) {
    var exp, nbf, iat := NumericDate(c, "exp"), NumericDate(c, "nbf"), NumericDate(c, "iat");
    && (holds(Typed(Exp)) <==> exp.Ok?) && (holds(Typed(Nbf)) <==> nbf.Ok?) && (holds(Typed(Iat)) <==> iat.Ok?)
    && (exp.Ok? ==> (holds(HasExpiry) <==> exp.value.Some?))
    && (exp.Ok? && exp.value.Some? ==> (holds(NotExpired) <==> now < exp.value.value + cfg.skew))
    && (nbf.Ok? ==> (holds(NotTooEarly) <==> nbf.value.None? || nbf.value.value <= now + cfg.skew))
    && (iat.Ok? ==> (holds(NotFromFuture) <==> iat.value.None? || iat.value.value <= now + cfg.skew))
  }

  lemma DateJudged(c: Claims, name: Bytes)
    ensures WellTyped(c, name) <==> NumericDate(c, name).Ok?
    ensures forall at :: Date(c, name, at) <==> NumericDate(c, name) == Ok(Some(at))
  {
  }

  lemma ComputesJudged(cfg: Config, parts: Parts, now: int)
    requires ValidConfig(cfg) && parts.claims.Some?
    ensures Computes(cfg, parts.claims.value, now, Judge(cfg, parts, now))
  {
    PartiesJudged(cfg, parts, now);
    DatesJudged(cfg, parts, now);
  }

  lemma PartiesJudged(cfg: Config, parts: Parts, now: int)
    requires ValidConfig(cfg) && parts.claims.Some?
    ensures ComputesParties(cfg, parts.claims.value, Judge(cfg, parts, now))
  {
  }

  lemma DatesJudged(cfg: Config, parts: Parts, now: int)
    requires parts.claims.Some?
    ensures ComputesDates(cfg, parts.claims.value, now, Judge(cfg, parts, now))
  {
    DateJudged(parts.claims.value, "exp");
    DateJudged(parts.claims.value, "nbf");
    DateJudged(parts.claims.value, "iat");
  }

  /** The first broken registered-claim rule, rule by rule. */
  lemma FirstRegisteredUnfolds(holds: Rule -> bool)
    ensures FirstRegistered(holds) ==
            if !holds(RightIssuer) then Some(RightIssuer)
            else if !holds(RightAudience) then Some(RightAudience)
            else if !holds(Typed(Exp)) then Some(Typed(Exp))
            else if !holds(HasExpiry) then Some(HasExpiry)
            else if !holds(NotExpired) then Some(NotExpired)
            else if !holds(Typed(Nbf)) then Some(Typed(Nbf))
            else if !holds(NotTooEarly) then Some(NotTooEarly)
            else if !holds(Typed(Iat)) then Some(Typed(Iat))
            else if !holds(NotFromFuture) then Some(NotFromFuture)
            else None
  {
    FirstOfTwo(RightIssuer, RightAudience, holds);
    FirstOfThree(Typed(Exp), HasExpiry, NotExpired, holds);
    FirstOfTwo(Typed(Nbf), NotTooEarly, holds);
    FirstOfTwo(Typed(Iat), NotFromFuture, holds);
  }

  /** The fault `registered` returns is the answer of that rule. */
  ghost predicate Returns(cfg: Config, c: Claims, now: int, first: Option<Rule>) {
    && (first.Some? ==> AnswerFor(first.value).InvalidToken?)
    && Registered(cfg, c, now) == if first.Some? then Some(AnswerFor(first.value).fault) else None
  }

  ghost predicate InTime(holds: Rule -> bool) {
    && holds(RightIssuer) && holds(RightAudience)
    && holds(Typed(Exp)) && holds(HasExpiry) && holds(NotExpired)
  }

  lemma RegisteredEarly(cfg: Config, c: Claims, now: int, holds: Rule -> bool)
    requires Computes(cfg, c, now, holds) && !InTime(holds)
    ensures Returns(cfg, c, now, FirstRegistered(holds))
  {
    FirstRegisteredUnfolds(holds);
  }

  lemma RegisteredLate(cfg: Config, c: Claims, now: int, holds: Rule -> bool)
    requires Computes(cfg, c, now, holds) && InTime(holds)
    ensures Returns(cfg, c, now, FirstRegistered(holds))
  {
    FirstRegisteredUnfolds(holds);
  }

  lemma RegisteredInOrder(cfg: Config, c: Claims, now: int, holds: Rule -> bool)
    requires Computes(cfg, c, now, holds)
    ensures Returns(cfg, c, now, FirstRegistered(holds))
  {
    if InTime(holds) {
      RegisteredLate(cfg, c, now, holds);
    } else {
      RegisteredEarly(cfg, c, now, holds);
    }
  }

  lemma {:induction false} RequiredInOrder(cfg: Config, parts: Parts, now: int, names: seq<Bytes>)
    requires parts.claims.Some?
    ensures First(Required(names), Judge(cfg, parts, now)) ==
            match FirstMissing(parts.claims.value, names) case Some(name) => Some(Carries(name)) case None => None
  {
    if names != [] {
      var rules := Required(names);
      assert rules[0] == Carries(names[0]) && rules[1..] == Required(names[1..]);
      RequiredInOrder(cfg, parts, now, names[1..]);
    }
  }

  lemma AuthorizeInOrder(cfg: Config, parts: Parts, now: int)
    requires parts.claims.Some?
    ensures var first := First(Authorization(cfg), Judge(cfg, parts, now));
            Authorize(cfg, parts.claims.value) == if first.Some? then Some(AnswerFor(first.value)) else None
  {
    var rules := Authorization(cfg);
    assert rules[0] == GrantsScope && rules[1..] == Required(cfg.required);
    ScopeIff(cfg, parts.claims.value);
    RequiredInOrder(cfg, parts, now, cfg.required);
  }

  /** The decision is the answer of the first broken rule, in the code's order. */
  lemma DecidesInOrder(cfg: Config, parts: Parts, now: int)
    requires ValidConfig(cfg)
    ensures Decide(cfg, parts, now) == Answer(parts, CodeOrder(cfg), Judge(cfg, parts, now))
  {
    var holds := Judge(cfg, parts, now);
    CodeFirst(cfg, holds);
    FirstOfThree(NamesAlgorithm, AllowedAlgorithm, Parses, holds);
    FirstOfThree(KnownKey, GoodSignature, IsObject, holds);
    if parts.claims.Some? {
      ComputesJudged(cfg, parts, now);
      RegisteredInOrder(cfg, parts.claims.value, now, holds);
      AuthorizeInOrder(cfg, parts, now);
    }
  }

  lemma UnbrokenIsObject(cfg: Config, parts: Parts, now: int)
    ensures First(CodeOrder(cfg), Judge(cfg, parts, now)).None? ==> parts.claims.Some?
  {
    var holds := Judge(cfg, parts, now);
    CodeFirst(cfg, holds);
    FirstOfThree(KnownKey, GoodSignature, IsObject, holds);
  }

  /** A refusal names a rule that is broken, and every rule the code applies before it holds. */
  lemma RefusalNamesFirstBroken(cfg: Config, parts: Parts, now: int) returns (i: nat)
    requires ValidConfig(cfg) && Decide(cfg, parts, now).Err?
    ensures var order := CodeOrder(cfg);
            && i < |order| && Decide(cfg, parts, now).error == AnswerFor(order[i])
            && !Holds(cfg, parts, now, order[i])
            && forall j :: 0 <= j < i ==> Holds(cfg, parts, now, order[j])
  {
    var order, holds := CodeOrder(cfg), Judge(cfg, parts, now);
    DecidesInOrder(cfg, parts, now);
    i := FirstIsFirst(order, holds);
    UnbrokenIsObject(cfg, parts, now);
    forall j | 0 <= j < i ensures Holds(cfg, parts, now, order[j]) {
      assert holds(order[j]);
    }
  }
}
