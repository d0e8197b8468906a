/**
 The token profile: its rules on their own, as the document states them, in the order it lists
 them, and exactly when the code answers a token otherwise.

 Rule 2 is a compact JWS, rule 3 the configured algorithms; the key set's verdict decides rules
 4 and 5 for both sides.
 */
module Profile {
  import opened Wrappers
  import opened Text
  import opened Fields
  import opened Token
  import opened Precedence
  import KeySet

  // -------------------------------------------------------- the documented rules

  predicate AllStrings(items: seq<Json>) {
    forall i :: 0 <= i < |items| ==> items[i].Str?
  }

  /** The claim is an array of strings, and holds the text. */
  predicate Lists(c: Claims, name: Bytes, text: Bytes) {
    name in c && c[name].Arr? && AllStrings(c[name].items) && Str(text) in c[name].items
  }

  /** The claim is a space-delimited string, and holds the text. */
  predicate Delimits(c: Claims, name: Bytes, text: Bytes) {
    name in c && c[name].Str? && text in Split(c[name].text, ' ')
  }

  /** The date in nanoseconds, as it is written. */
  function Written(f: real): real {
    f * NANOS as real
  }

  /** A date claim is present, and a number. */
  predicate Dates(c: Claims, name: Bytes) {
    name in c && c[name].Number?
  }

  ghost predicate Documents(cfg: Config, parts: Parts, now: int, rule: Rule) {
    match rule
    case NamesAlgorithm => parts.alg.Some? && parts.alg.value != []
    case AllowedAlgorithm => parts.alg.Some? && parts.alg.value in cfg.algorithms
    case Parses => parts.parses
    case KnownKey => !parts.signature.UnknownKey?
    case GoodSignature => !parts.signature.BadSignature?
    case IsObject => parts.claims.Some? && parts.whole
    case _ => parts.claims.Some? ==> DocumentsOf(cfg, parts.claims.value, now, rule)
  }

  ghost predicate DocumentsOf(cfg: Config, c: Claims, now: int, rule: Rule) {
    match rule
    case RightIssuer => "iss" in c && c["iss"] == Str(cfg.issuer)
    case RightAudience => ("aud" in c && c["aud"] == Str(cfg.audience)) || Lists(c, "aud", cfg.audience)
    case Typed(date) => NameOf(date) in c ==> c[NameOf(date)].Number?
    case HasExpiry => "exp" in c
    case NotExpired => Dates(c, "exp") ==> now as real < Written(c["exp"].value) + cfg.skew as real
    case NotTooEarly => Dates(c, "nbf") ==> (now + cfg.skew) as real >= Written(c["nbf"].value)
    case NotFromFuture => Dates(c, "iat") ==> Written(c["iat"].value) <= (now + cfg.skew) as real
    case GrantsScope => Delimits(c, "scope", cfg.scope) || Lists(c, "scp", cfg.scope) || Delimits(c, "scp", cfg.scope)
    case Carries(name) =>
      name in c && c[name] != Null && c[name] != Str([]) && c[name] != Arr([]) && c[name] != Obj(map[])
    case _ => true
  }

  const DOCUMENTED_HEADER: seq<Rule> := [NamesAlgorithm, Parses, AllowedAlgorithm]
  const TYPES: seq<Rule> := [Typed(Exp), Typed(Nbf), Typed(Iat)]

  /** Rules 7 to 14. */
  function Values(cfg: Config): seq<Rule> {
    PARTIES + ([HasExpiry, NotExpired] + ([NotTooEarly, NotFromFuture] + Authorization(cfg)))
  }

  /** Rules 2 to 14: the whole token first, then all types before any value. */
  function DocumentedOrder(cfg: Config): seq<Rule> {
    DOCUMENTED_HEADER + (SIGNATURE + (TYPES + Values(cfg)))
  }

  ghost function Read(cfg: Config, parts: Parts, now: int): Rule -> bool {
    rule => Documents(cfg, parts, now, rule)
  }

  /** The answer the profile promises: the first broken rule's. */
  ghost function Promised(cfg: Config, parts: Parts, now: int): Result<Claims, Refusal> {
    Answer(parts, DocumentedOrder(cfg), Read(cfg, parts, now))
  }

  // ----------------------------------------------- where a rule is read differently

  /** The claim is an array that holds the text, and also something that is no string. */
  ghost predicate Mixes(c: Claims, name: Bytes, text: Bytes) {
    name in c && c[name].Arr? && Str(text) in c[name].items && !AllStrings(c[name].items)
  }

  /** The claim's text holds the token, but nowhere between blanks: other white space delimits it. */
  ghost predicate Spaced(c: Claims, name: Bytes, text: Bytes) {
    name in c && c[name].Str? && HasToken(c[name].text, text) && text !in Split(c[name].text, ' ')
  }

  /**
   The instant falls between a date as written and as the code keeps it: on the nanosecond a
   fraction of which was cut off, or beyond the years it clamps dates to.
   */
  ghost predicate Slips(c: Claims, name: Bytes, at: int) {
    Dates(c, name) && InGap(c[name].value, at)
  }

  ghost predicate InGap(f: real, at: int) {
    if f > LIMIT then Instant(f) <= at && at as real < Written(f)
    else if f < -LIMIT then Written(f) <= at as real && at < Instant(f)
    else f > 0.0 && at == Instant(f) && Instant(f) as real < Written(f)
  }

  /**
   A plain scope is granted only beside other white space or in a mixed array; one with white
   space of its own is missed in a text, and found in a mixed array alone.
   */
  ghost predicate ScopeSlips(c: Claims, scope: Bytes) {
    var blank := Delimits(c, "scope", scope) || Delimits(c, "scp", scope);
    if Plain(scope) then
      && !blank && !Lists(c, "scp", scope)
      && (Spaced(c, "scope", scope) || Spaced(c, "scp", scope) || Mixes(c, "scp", scope))
    else
      (blank && !Lists(c, "scp", scope) && !Mixes(c, "scp", scope)) || (!blank && Mixes(c, "scp", scope))
  }

  ghost predicate Differs(cfg: Config, c: Claims, now: int, rule: Rule) {
    match rule
    case RightAudience => Mixes(c, "aud", cfg.audience)
    case NotExpired => Slips(c, "exp", now - cfg.skew)
    case NotTooEarly => Slips(c, "nbf", now + cfg.skew)
    case NotFromFuture => Slips(c, "iat", now + cfg.skew)
    case GrantsScope => ScopeSlips(c, cfg.scope)
    case _ => false
  }

  lemma GapExact(f: real, at: int)
    ensures InGap(f, at) <==> ((at < Instant(f)) != (at as real < Written(f)))
    ensures InGap(f, at) <==> ((Instant(f) <= at) != (Written(f) <= at as real))
  {
    InstantExact(f);
    if -LIMIT <= f <= LIMIT {
      TruncateGap(Written(f), at);
    } else {
      ClampedAway(f);
    }
  }

  lemma TruncateGap(x: real, at: int)
    ensures (x > 0.0 && at == Truncate(x) && Truncate(x) as real < x) <==> ((at < Truncate(x)) != (at as real < x))
  {
  }

  lemma ClampedAway(f: real)
    requires f > LIMIT || f < -LIMIT
    ensures f > LIMIT ==> Instant(f) as real < Written(f)
    ensures f < -LIMIT ==> Written(f) < Instant(f) as real
  {
    InstantExact(f);
    assert Clamp(f) * NANOS as real == (if f > LIMIT then LIMIT else -LIMIT) * NANOS as real;
  }

  lemma TextSlips(c: Claims, name: Bytes, scope: Bytes)
    requires name in c && c[name].Str?
    ensures HasToken(c[name].text, scope) ==> Plain(scope)
    ensures Plain(scope) && Delimits(c, name, scope) ==> HasToken(c[name].text, scope)
  {
    var s := c[name].text;
    if HasToken(s, scope) {
      TokenIsPlain(s, scope);
    }
    if Plain(scope) && scope in Split(s, ' ') {
      var k :| 0 <= k < |Split(s, ' ')| && Split(s, ' ')[k] == scope;
      var i, j := JoinStands(Split(s, ' '), k);
      JoinSplit(s, ' ');
      BlankIsToken(s, scope, i, j);
    }
  }

  lemma ScopeSlipsIff(cfg: Config, c: Claims, now: int)
    ensures ScopeSlips(c, cfg.scope) <==> (ScopeRule(cfg, c) != DocumentsOf(cfg, c, now, GrantsScope))
  {
    if "scope" in c && c["scope"].Str? {
      TextSlips(c, "scope", cfg.scope);
    }
    if "scp" in c && c["scp"].Str? {
      TextSlips(c, "scp", cfg.scope);
    }
  }

  lemma DateSlipsIff(c: Claims, name: Bytes, at: int)
    ensures Slips(c, name, at) <==>
            Dates(c, name) && ((at < Instant(c[name].value)) != (at as real < Written(c[name].value)))
    ensures Slips(c, name, at) <==>
            Dates(c, name) && ((Instant(c[name].value) <= at) != (Written(c[name].value) <= at as real))
  {
    if Dates(c, name) {
      GapExact(c[name].value, at);
    }
  }

  /** The code and the profile disagree on a rule exactly where it is said to be read differently. */
  lemma DiffersIff(cfg: Config, c: Claims, now: int, rule: Rule)
    ensures Differs(cfg, c, now, rule) <==> (HoldsOf(cfg, c, now, rule) != DocumentsOf(cfg, c, now, rule))
  {
    match rule {
      case NotExpired =>
        DateSlipsIff(c, "exp", now - cfg.skew);
        DateJudged(c, "exp");
      case NotTooEarly =>
        DateSlipsIff(c, "nbf", now + cfg.skew);
        DateJudged(c, "nbf");
      case NotFromFuture =>
        DateSlipsIff(c, "iat", now + cfg.skew);
        DateJudged(c, "iat");
      case GrantsScope =>
        ScopeSlipsIff(cfg, c, now);
      case _ =>
    }
  }

  // ------------------------------------------------------------- two readings

  /** Somewhere in the list the readings part, with everything before it held to hold. */
  ghost predicate Part(rules: seq<Rule>, code: Rule -> bool, documented: Rule -> bool) {
    exists k :: 0 <= k < |rules| && code(rules[k]) != documented(rules[k]) && forall j :: 0 <= j < k ==> code(rules[j])
  }

  lemma PartStep(rules: seq<Rule>, code: Rule -> bool, documented: Rule -> bool)
    requires rules != []
    ensures Part(rules, code, documented) <==>
            code(rules[0]) != documented(rules[0]) || (code(rules[0]) && Part(rules[1..], code, documented))
  {
    var rest := rules[1..];
    assert forall k :: 0 <= k < |rest| ==> rest[k] == rules[k + 1];
    if Part(rules, code, documented) {
      var k :| 0 <= k < |rules| && code(rules[k]) != documented(rules[k]) && forall j :: 0 <= j < k ==> code(rules[j]);
      if k > 0 {
        assert code(rest[k - 1]) != documented(rest[k - 1]);
        assert Part(rest, code, documented);
      }
    }
    if code(rules[0]) && Part(rest, code, documented) {
      var k :| 0 <= k < |rest| && code(rest[k]) != documented(rest[k]) && forall j :: 0 <= j < k ==> code(rest[j]);
      forall j | 0 <= j < k + 1 ensures code(rules[j]) {
        assert j > 0 ==> rules[j] == rest[j - 1];
      }
      assert code(rules[k + 1]) != documented(rules[k + 1]);
    }
  }

  lemma {:induction false} SameFirstIff(rules: seq<Rule>, code: Rule -> bool, documented: Rule -> bool)
    ensures First(rules, code) == First(rules, documented) <==> !Part(rules, code, documented)
  {
    if rules != [] {
      SameFirstIff(rules[1..], code, documented);
      PartStep(rules, code, documented);
      var i := FirstIsFirst(rules, code);
      var j := FirstIsFirst(rules, documented);
    }
  }

  // -------------------------------------------------------------- the answers

  ghost function AnswerOf(first: Option<Rule>): Option<Refusal> {
    if first.Some? then Some(AnswerFor(first.value)) else None
  }

  /** A rule about values: its answer is its own, and never that the token is malformed. */
  predicate OfValues(rule: Rule) {
    rule.RightIssuer? || rule.RightAudience? || rule.HasExpiry? || rule.NotExpired? || rule.NotTooEarly?
    || rule.NotFromFuture? || rule.GrantsScope? || rule.Carries?
  }

  lemma {:induction false} RequiredOfValues(names: seq<Bytes>, rule: Rule)
    requires rule in Required(names)
    ensures rule.Carries?
  {
    if rule != Carries(names[0]) {
      RequiredOfValues(names[1..], rule);
    }
  }

  lemma ValuesOfValues(cfg: Config, rule: Rule)
    requires rule in Values(cfg) || rule in Authorization(cfg)
    ensures OfValues(rule)
  {
    if rule in Required(cfg.required) {
      RequiredOfValues(cfg.required, rule);
    }
  }

  lemma FirstOfValues(cfg: Config, holds: Rule -> bool)
    ensures First(Values(cfg), holds).Some? ==> OfValues(First(Values(cfg), holds).value)
    ensures First(Authorization(cfg), holds).Some? ==> OfValues(First(Authorization(cfg), holds).value)
  {
    var i := FirstIsFirst(Values(cfg), holds);
    var j := FirstIsFirst(Authorization(cfg), holds);
    if First(Values(cfg), holds).Some? {
      ValuesOfValues(cfg, Values(cfg)[i]);
    }
    if First(Authorization(cfg), holds).Some? {
      ValuesOfValues(cfg, Authorization(cfg)[j]);
    }
  }

  ghost predicate Types(holds: Rule -> bool) {
    holds(Typed(Exp)) && holds(Typed(Nbf)) && holds(Typed(Iat))
  }

  /** A date that is no number breaks no rule about its value. */
  ghost predicate Dated(holds: Rule -> bool) {
    && (!holds(Typed(Exp)) ==> holds(HasExpiry) && holds(NotExpired))
    && (!holds(Typed(Nbf)) ==> holds(NotTooEarly))
    && (!holds(Typed(Iat)) ==> holds(NotFromFuture))
  }

  /** A date is no number, and a rule the code applies before it looks at that date is broken. */
  ghost predicate OvertakenIn(holds: Rule -> bool) {
    && !Types(holds)
    && (|| !holds(RightIssuer) || !holds(RightAudience)
        || (holds(Typed(Exp)) && !(holds(HasExpiry) && holds(NotExpired) && holds(NotTooEarly))))
  }

  lemma ValuesFirst(cfg: Config, holds: Rule -> bool)
    ensures First(Values(cfg), holds) ==
            Else(First(PARTIES, holds), Else(First([HasExpiry, NotExpired], holds),
                 Else(First([NotTooEarly, NotFromFuture], holds), First(Authorization(cfg), holds))))
  {
    var rest := Authorization(cfg);
    FirstAppend([NotTooEarly, NotFromFuture], rest, holds);
    FirstAppend([HasExpiry, NotExpired], [NotTooEarly, NotFromFuture] + rest, holds);
    FirstAppend(PARTIES, [HasExpiry, NotExpired] + ([NotTooEarly, NotFromFuture] + rest), holds);
  }

  lemma DocumentedFirst(cfg: Config, holds: Rule -> bool)
    ensures First(DocumentedOrder(cfg), holds) ==
            Else(First(DOCUMENTED_HEADER, holds), Else(First(SIGNATURE, holds),
                 Else(First(TYPES, holds), First(Values(cfg), holds))))
  {
    FirstAppend(TYPES, Values(cfg), holds);
    FirstAppend(SIGNATURE, TYPES + Values(cfg), holds);
    FirstAppend(DOCUMENTED_HEADER, SIGNATURE + (TYPES + Values(cfg)), holds);
  }

  /** The code's claim rules, in its order. */
  ghost function CodeRest(cfg: Config, holds: Rule -> bool): Option<Rule> {
    Else(FirstRegistered(holds), First(Authorization(cfg), holds))
  }

  /** With every date a number, the code applies rules 7 to 14 in their order. */
  lemma TypedRest(cfg: Config, holds: Rule -> bool)
    requires Types(holds)
    ensures CodeRest(cfg, holds) == First(Values(cfg), holds)
  {
    FirstRegisteredUnfolds(holds);
    ValuesFirst(cfg, holds);
    FirstOfTwo(RightIssuer, RightAudience, holds);
    FirstOfTwo(HasExpiry, NotExpired, holds);
    FirstOfTwo(NotTooEarly, NotFromFuture, holds);
  }

  /** The claim rules end in malformed exactly when a date is no number and nothing overtakes it. */
  lemma MalformedIff(cfg: Config, holds: Rule -> bool)
    requires Dated(holds)
    ensures AnswerOf(CodeRest(cfg, holds)) == Some(InvalidToken(Malformed)) <==> !Types(holds) && !OvertakenIn(holds)
  {
    FirstRegisteredUnfolds(holds);
    FirstOfValues(cfg, holds);
  }

  lemma SameAnswerIff(cfg: Config, code: Rule -> bool, documented: Rule -> bool)
    ensures AnswerOf(First(Values(cfg), code)) == AnswerOf(First(Values(cfg), documented)) <==>
            !Part(Values(cfg), code, documented)
  {
    SameFirstIff(Values(cfg), code, documented);
    FirstOfValues(cfg, code);
    FirstOfValues(cfg, documented);
  }

  /** The readings that agree on everything before the claims, and on the claims' types. */
  ghost predicate Alike(code: Rule -> bool, documented: Rule -> bool) {
    && (forall rule :: rule in HEADER || rule in TYPES ==> code(rule) == documented(rule))
    && code(KnownKey) == documented(KnownKey) && code(GoodSignature) == documented(GoodSignature)
    && (documented(IsObject) ==> code(IsObject))
  }

  ghost predicate Reaches(holds: Rule -> bool) {
    && holds(NamesAlgorithm) && holds(AllowedAlgorithm) && holds(Parses)
    && holds(KnownKey) && holds(GoodSignature) && holds(IsObject)
  }

  ghost predicate DivergesIn(cfg: Config, code: Rule -> bool, documented: Rule -> bool) {
    || (code(NamesAlgorithm) && !code(AllowedAlgorithm) && !code(Parses))
    || (Reaches(code)
        && if documented(IsObject) && Types(code) then Part(Values(cfg), code, documented)
           else Types(code) || OvertakenIn(code))
  }

  lemma ReachedAgreeIff(cfg: Config, code: Rule -> bool, documented: Rule -> bool)
    requires Dated(code) && Alike(code, documented)
    ensures var promised := if !documented(IsObject) then Some(IsObject)
                            else Else(First(TYPES, documented), First(Values(cfg), documented));
            AnswerOf(CodeRest(cfg, code)) == AnswerOf(promised) <==>
            !(if documented(IsObject) && Types(code) then Part(Values(cfg), code, documented)
              else Types(code) || OvertakenIn(code))
  {
    assert Typed(Exp) in TYPES && Typed(Nbf) in TYPES && Typed(Iat) in TYPES;
    FirstOfThree(Typed(Exp), Typed(Nbf), Typed(Iat), documented);
    MalformedIff(cfg, code);
    if Types(code) {
      TypedRest(cfg, code);
      SameAnswerIff(cfg, code, documented);
    }
  }

  lemma AnswersAgreeIff(cfg: Config, code: Rule -> bool, documented: Rule -> bool)
    requires Dated(code) && Alike(code, documented)
    ensures AnswerOf(First(CodeOrder(cfg), code)) == AnswerOf(First(DocumentedOrder(cfg), documented)) <==>
            !DivergesIn(cfg, code, documented)
  {
    assert NamesAlgorithm in HEADER && AllowedAlgorithm in HEADER && Parses in HEADER;
    CodeFirst(cfg, code);
    DocumentedFirst(cfg, documented);
    FirstOfThree(NamesAlgorithm, AllowedAlgorithm, Parses, code);
    FirstOfThree(NamesAlgorithm, Parses, AllowedAlgorithm, documented);
    FirstOfThree(KnownKey, GoodSignature, IsObject, code);
    FirstOfThree(KnownKey, GoodSignature, IsObject, documented);
    ReachedAgreeIff(cfg, code, documented);
  }

  // ---------------------------------------------------------- code and profile

  ghost predicate Overtaken(cfg: Config, c: Claims, now: int) {
    && !DatesRule(c)
    && (|| !IssuerRule(cfg, c) || !AudienceRule(cfg, c)
        || (WellTyped(c, "exp") && (!ExpiryRule(cfg, c, now) || !NotAhead(cfg, c, "nbf", now))))
  }

  /** The first of rules 7 to 14 that is broken or read differently is one read differently. */
  ghost predicate ReadDifferently(cfg: Config, c: Claims, now: int) {
    var rules := Values(cfg);
    exists k :: 0 <= k < |rules| && Differs(cfg, c, now, rules[k])
                && forall j :: 0 <= j < k ==> HoldsOf(cfg, c, now, rules[j])
  }

  /**
   A token of another algorithm that is no JWS beyond its header; or one that reaches its
   claims, and either is malformed by rule 6 but gets another answer first, or passes rule 6
   and meets a rule that is read differently before any broken one.
   */
  ghost predicate Diverges(cfg: Config, parts: Parts, now: int) {
    || (parts.alg.Some? && parts.alg.value != [] && parts.alg.value !in cfg.algorithms && !parts.parses)
    || (HeaderRule(cfg, parts) && parts.signature.Payload? && parts.claims.Some?
        && var c := parts.claims.value;
           if parts.whole && DatesRule(c) then ReadDifferently(cfg, c, now) else DatesRule(c) || Overtaken(cfg, c, now))
  }

  lemma AlikeJudged(cfg: Config, parts: Parts, now: int)
    ensures Dated(Judge(cfg, parts, now)) && Alike(Judge(cfg, parts, now), Read(cfg, parts, now))
  {
  }

  lemma PartJudged(cfg: Config, parts: Parts, now: int)
    requires parts.claims.Some?
    ensures Part(Values(cfg), Judge(cfg, parts, now), Read(cfg, parts, now)) <==>
            ReadDifferently(cfg, parts.claims.value, now)
  {
    var rules, c := Values(cfg), parts.claims.value;
    forall k | 0 <= k < |rules|
      ensures Judge(cfg, parts, now)(rules[k]) == HoldsOf(cfg, c, now, rules[k])
      ensures Read(cfg, parts, now)(rules[k]) == DocumentsOf(cfg, c, now, rules[k])
      ensures Differs(cfg, c, now, rules[k]) <==> (HoldsOf(cfg, c, now, rules[k]) != DocumentsOf(cfg, c, now, rules[k]))
    {
      ValuesOfValues(cfg, rules[k]);
      DiffersIff(cfg, c, now, rules[k]);
    }
  }

  lemma ExpiryJudged(cfg: Config, c: Claims, now: int)
    requires WellTyped(c, "exp")
    ensures ExpiryRule(cfg, c, now) <==> "exp" in c && forall at :: Date(c, "exp", at) ==> now < at + cfg.skew
  {
    DateJudged(c, "exp");
    if "exp" in c {
      assert Date(c, "exp", Instant(c["exp"].value));
    }
  }

  lemma OvertakenJudged(cfg: Config, parts: Parts, now: int)
    requires parts.claims.Some?
    ensures OvertakenIn(Judge(cfg, parts, now)) <==> Overtaken(cfg, parts.claims.value, now)
    ensures Types(Judge(cfg, parts, now)) <==> DatesRule(parts.claims.value)
  {
    if WellTyped(parts.claims.value, "exp") {
      ExpiryJudged(cfg, parts.claims.value, now);
    }
  }

  lemma DivergesJudged(cfg: Config, parts: Parts, now: int)
    ensures DivergesIn(cfg, Judge(cfg, parts, now), Read(cfg, parts, now)) <==> Diverges(cfg, parts, now)
  {
    if parts.claims.Some? {
      OvertakenJudged(cfg, parts, now);
      PartJudged(cfg, parts, now);
    }
  }

  lemma PromisedIsObject(cfg: Config, parts: Parts, now: int)
    ensures First(DocumentedOrder(cfg), Read(cfg, parts, now)).None? ==> parts.claims.Some?
  {
    DocumentedFirst(cfg, Read(cfg, parts, now));
    FirstOfThree(KnownKey, GoodSignature, IsObject, Read(cfg, parts, now));
  }

  /** The code's answer is the one the profile promises for exactly the tokens that do not diverge. */
  lemma AnswersAsPromisedIff(cfg: Config, parts: Parts, now: int)
    requires ValidConfig(cfg)
    ensures Decide(cfg, parts, now) == Promised(cfg, parts, now) <==> !Diverges(cfg, parts, now)
  {
    DecidesInOrder(cfg, parts, now);
    UnbrokenIsObject(cfg, parts, now);
    PromisedIsObject(cfg, parts, now);
    AlikeJudged(cfg, parts, now);
    AnswersAgreeIff(cfg, Judge(cfg, parts, now), Read(cfg, parts, now));
    DivergesJudged(cfg, parts, now);
  }

  // --------------------------------------------------------------- acceptance

  /** Some rule is read differently. */
  ghost predicate AnyDiffers(cfg: Config, c: Claims, now: int) {
    || Differs(cfg, c, now, RightAudience) || Differs(cfg, c, now, GrantsScope)
    || Differs(cfg, c, now, NotExpired) || Differs(cfg, c, now, NotTooEarly) || Differs(cfg, c, now, NotFromFuture)
  }

  lemma NoneBrokenIff(rules: seq<Rule>, holds: Rule -> bool)
    ensures First(rules, holds).None? <==> forall rule :: rule in rules ==> holds(rule)
  {
    var i := FirstIsFirst(rules, holds);
  }

  lemma SameRules(cfg: Config, rule: Rule)
    ensures rule in CodeOrder(cfg) <==> rule in DocumentedOrder(cfg)
  {
  }

  lemma OrderHas(cfg: Config)
    ensures IsObject in DocumentedOrder(cfg) && RightAudience in DocumentedOrder(cfg)
    ensures NotExpired in DocumentedOrder(cfg) && NotTooEarly in DocumentedOrder(cfg)
    ensures NotFromFuture in DocumentedOrder(cfg) && GrantsScope in DocumentedOrder(cfg)
  {
  }

  lemma RuleReadAlike(cfg: Config, parts: Parts, now: int, rule: Rule)
    requires parts.claims.Some? && (rule.IsObject? ==> parts.whole)
    ensures Holds(cfg, parts, now, rule) == Documents(cfg, parts, now, rule) <==>
            !Differs(cfg, parts.claims.value, now, rule)
  {
    DiffersIff(cfg, parts.claims.value, now, rule);
  }

  lemma DecidedIff(cfg: Config, parts: Parts, now: int)
    requires ValidConfig(cfg)
    ensures Decide(cfg, parts, now).Ok? <==>
            forall rule :: rule in DocumentedOrder(cfg) ==> Holds(cfg, parts, now, rule)
    ensures Decide(cfg, parts, now).Ok? ==> parts.claims.Some?
  {
    DecidesInOrder(cfg, parts, now);
    UnbrokenIsObject(cfg, parts, now);
    NoneBrokenIff(CodeOrder(cfg), Judge(cfg, parts, now));
    forall rule ensures rule in CodeOrder(cfg) <==> rule in DocumentedOrder(cfg) {
      SameRules(cfg, rule);
    }
    forall rule ensures Judge(cfg, parts, now)(rule) == Holds(cfg, parts, now, rule) {
    }
  }

  lemma PromisedIff(cfg: Config, parts: Parts, now: int)
    ensures Promised(cfg, parts, now).Ok? <==>
            forall rule :: rule in DocumentedOrder(cfg) ==> Documents(cfg, parts, now, rule)
    ensures Promised(cfg, parts, now).Ok? ==> parts.claims.Some? && parts.whole
  {
    OrderHas(cfg);
    NoneBrokenIff(DocumentedOrder(cfg), Read(cfg, parts, now));
    PromisedIsObject(cfg, parts, now);
    forall rule ensures Read(cfg, parts, now)(rule) == Documents(cfg, parts, now, rule) {
    }
  }

  lemma DifferingIsOne(cfg: Config, c: Claims, now: int, rule: Rule)
    requires Differs(cfg, c, now, rule)
    ensures AnyDiffers(cfg, c, now)
  {
  }

  lemma OneDiffers(cfg: Config, c: Claims, now: int) returns (rule: Rule)
    requires AnyDiffers(cfg, c, now)
    ensures rule in DocumentedOrder(cfg) && Differs(cfg, c, now, rule)
  {
    OrderHas(cfg);
    rule := if Differs(cfg, c, now, RightAudience) then RightAudience
            else if Differs(cfg, c, now, GrantsScope) then GrantsScope
            else if Differs(cfg, c, now, NotExpired) then NotExpired
            else if Differs(cfg, c, now, NotTooEarly) then NotTooEarly
            else NotFromFuture;
  }

  /** A rule of the order is read differently exactly when one of the five is. */
  lemma AnyDiffersIff(cfg: Config, c: Claims, now: int)
    ensures AnyDiffers(cfg, c, now) <==> exists rule :: rule in DocumentedOrder(cfg) && Differs(cfg, c, now, rule)
  {
    if AnyDiffers(cfg, c, now) {
      var rule := OneDiffers(cfg, c, now);
    } else if rule :| rule in DocumentedOrder(cfg) && Differs(cfg, c, now, rule) {
      DifferingIsOne(cfg, c, now, rule);
    }
  }

  /** A token the code accepts is one the profile accepts, and the reverse, exactly when no rule is read differently. */
  lemma AcceptsAsPromisedIff(cfg: Config, parts: Parts, now: int)
    requires ValidConfig(cfg)
    ensures Decide(cfg, parts, now).Ok? ==>
              && parts.claims.Some?
              && (Promised(cfg, parts, now).Ok? <==> parts.whole && !AnyDiffers(cfg, parts.claims.value, now))
    ensures Promised(cfg, parts, now).Ok? ==>
              && parts.claims.Some?
              && (Decide(cfg, parts, now).Ok? <==> !AnyDiffers(cfg, parts.claims.value, now))
  {
    DecidedIff(cfg, parts, now);
    PromisedIff(cfg, parts, now);
    if parts.claims.Some? {
      AnyDiffersIff(cfg, parts.claims.value, now);
    }
    if parts.claims.Some? && parts.whole {
      forall rule ensures Holds(cfg, parts, now, rule) == Documents(cfg, parts, now, rule) <==>
                          !Differs(cfg, parts.claims.value, now, rule)
      {
        RuleReadAlike(cfg, parts, now, rule);
      }
    }
  }

  // ----------------------------------------------------------------- examples

  /** What the examples need of a configuration. */
  predicate Simple(cfg: Config) {
    ValidConfig(cfg) && cfg.algorithms != [] && cfg.algorithms[0] != [] && cfg.required == []
  }

  function SampleClaims(cfg: Config, exp: real, scope: Bytes): (c: Claims)
    ensures Get(c, "iss") == Some(Str(cfg.issuer)) && Get(c, "aud") == Some(Str(cfg.audience))
    ensures Get(c, "exp") == Some(Number(exp)) && Get(c, "scope") == Some(Str(scope))
    ensures "nbf" !in c && "iat" !in c && "scp" !in c
  {
    map["iss" := Str(cfg.issuer), "aud" := Str(cfg.audience), "exp" := Number(exp), "scope" := Str(scope)]
  }

  /** A signed token of the right parties, with an expiry and a scope. */
  function Sample(cfg: Config, exp: real, scope: Bytes): Parts
    requires cfg.algorithms != []
  {
    Parts(Some(cfg.algorithms[0]), true, KeySet.Payload, Some(SampleClaims(cfg, exp, scope)), true)
  }

  /** The code accepts the sample exactly when it is in time and its scope's fields hold the scope. */
  lemma SampleDecided(cfg: Config, exp: real, scope: Bytes, now: int)
    requires Simple(cfg)
    ensures Decide(cfg, Sample(cfg, exp, scope), now).Ok? <==>
            now < Instant(exp) + cfg.skew && HasToken(scope, cfg.scope)
  {
    var c := SampleClaims(cfg, exp, scope);
    AcceptedIff(cfg, Sample(cfg, exp, scope), now);
    SampleDates(cfg, c, exp, now);
    SampleScope(cfg, c, scope);
  }

  lemma SampleDates(cfg: Config, c: Claims, exp: real, now: int)
    requires Get(c, "exp") == Some(Number(exp)) && "nbf" !in c && "iat" !in c
    ensures DatesRule(c) && NotAhead(cfg, c, "nbf", now) && NotAhead(cfg, c, "iat", now)
    ensures ExpiryRule(cfg, c, now) <==> now < Instant(exp) + cfg.skew
  {
    assert Date(c, "exp", Instant(exp));
  }

  lemma SampleScope(cfg: Config, c: Claims, scope: Bytes)
    requires Get(c, "scope") == Some(Str(scope)) && "scp" !in c
    ensures ScopeRule(cfg, c) <==> HasToken(scope, cfg.scope)
    ensures ScopeSlips(c, cfg.scope) <==> (HasToken(scope, cfg.scope) != (cfg.scope in Split(scope, ' ')))
  {
    ScopeSlipsIff(cfg, c, 0);
  }

  /** The profile accepts the sample exactly when it is in time as written and its blanks set off the scope. */
  lemma SamplePromised(cfg: Config, exp: real, scope: Bytes, now: int)
    requires Simple(cfg)
    ensures Promised(cfg, Sample(cfg, exp, scope), now).Ok? <==>
            now as real < Written(exp) + cfg.skew as real && cfg.scope in Split(scope, ' ')
  {
    var parts := Sample(cfg, exp, scope);
    PromisedIff(cfg, parts, now);
    OrderHas(cfg);
    SampleRead(cfg, exp, scope, now);
    forall rule | rule in DocumentedOrder(cfg) && !rule.NotExpired? && !rule.GrantsScope?
      ensures Documents(cfg, parts, now, rule)
    {
      NoneRequired(cfg, rule);
      SampleKeeps(cfg, exp, scope, now, rule);
    }
  }

  lemma SampleRead(cfg: Config, exp: real, scope: Bytes, now: int)
    requires cfg.algorithms != []
    ensures Documents(cfg, Sample(cfg, exp, scope), now, NotExpired) <==>
            now as real < Written(exp) + cfg.skew as real
    ensures Documents(cfg, Sample(cfg, exp, scope), now, GrantsScope) <==> cfg.scope in Split(scope, ' ')
  {
    var c := SampleClaims(cfg, exp, scope);
    assert Dates(c, "exp") && Delimits(c, "scope", cfg.scope) == (cfg.scope in Split(scope, ' '));
  }

  lemma SampleKeeps(cfg: Config, exp: real, scope: Bytes, now: int, rule: Rule)
    requires Simple(cfg) && !rule.NotExpired? && !rule.GrantsScope? && !rule.Carries?
    ensures Documents(cfg, Sample(cfg, exp, scope), now, rule)
  {
    var c := SampleClaims(cfg, exp, scope);
    assert !Dates(c, "nbf") && !Dates(c, "iat") && Dates(c, "exp");
  }

  lemma NoneRequired(cfg: Config, rule: Rule)
    requires cfg.required == [] && rule in DocumentedOrder(cfg)
    ensures !rule.Carries?
  {
  }

  /** A scope set off by a tab: the code accepts the token, the profile knows only blanks. */
  lemma TabbedScope(cfg: Config)
    requires Simple(cfg) && cfg.scope == "w"
    ensures Decide(cfg, Sample(cfg, 1.0, "x\tw"), 0).Ok? && Promised(cfg, Sample(cfg, 1.0, "x\tw"), 0).Err?
  {
    SampleDecided(cfg, 1.0, "x\tw", 0);
    SamplePromised(cfg, 1.0, "x\tw", 0);
    assert StandsAt("x\tw", "w", 2, 3);
    SplitOne("x\tw");
  }

  /** A scope with a no-break space in it, which the configuration allows: the code never finds it. */
  lemma UnfindableScope(cfg: Config)
    requires Simple(cfg) && cfg.scope == "a\U{C2}\U{A0}b"
    ensures Decide(cfg, Sample(cfg, 1.0, cfg.scope), 0).Err? && Promised(cfg, Sample(cfg, 1.0, cfg.scope), 0).Ok?
  {
    SampleDecided(cfg, 1.0, cfg.scope, 0);
    SamplePromised(cfg, 1.0, cfg.scope, 0);
    SplitOne(cfg.scope);
    assert SpaceAt(cfg.scope, 1, 2);
    SpaceFromAt(cfg.scope, 1, 2);
    if HasToken(cfg.scope, cfg.scope) {
      TokenIsPlain(cfg.scope, cfg.scope);
    }
  }

  /** The nanosecond in which a fractional expiry falls: the code has cut the fraction off. */
  lemma FractionalExpiry(cfg: Config)
    requires Simple(cfg) && cfg.scope == "w"
    ensures var parts, now := Sample(cfg, 1.0000000005, "w"), NANOS + cfg.skew;
            Decide(cfg, parts, now).Err? && Promised(cfg, parts, now).Ok?
  {
    SampleDecided(cfg, 1.0000000005, "w", NANOS + cfg.skew);
    SamplePromised(cfg, 1.0000000005, "w", NANOS + cfg.skew);
    InstantExact(1.0000000005);
    SplitOne("w");
  }

  lemma SplitOne(s: Bytes)
    requires ' ' !in s
    ensures Split(s, ' ') == [s]
  {
  }

  /** A token without `exp` and with a text for `nbf`: the profile says malformed, the code that `exp` is missing. */
  lemma DivergingToken(cfg: Config, now: int) returns (parts: Parts)
    requires Simple(cfg)
    ensures Decide(cfg, parts, now) == Err(InvalidToken(NoExpiry))
    ensures Promised(cfg, parts, now) == Err(InvalidToken(Malformed))
  {
    var claims: Claims := map["iss" := Str(cfg.issuer), "aud" := Str(cfg.audience), "nbf" := Str("soon")];
    parts := Parts(Some(cfg.algorithms[0]), true, KeySet.Payload, Some(claims), true);
    IllTypedIsMalformed(cfg, parts, now);
  }

  /** The profile's answer for a signed object with an ill-typed `nbf` is malformed. */
  lemma IllTypedIsMalformed(cfg: Config, parts: Parts, now: int)
    requires HeaderRule(cfg, parts) && parts.signature.Payload? && parts.claims.Some?
    requires !WellTyped(parts.claims.value, "nbf")
    ensures Promised(cfg, parts, now) == Err(InvalidToken(Malformed))
  {
    var holds := Read(cfg, parts, now);
    DocumentedFirst(cfg, holds);
    FirstOfThree(NamesAlgorithm, Parses, AllowedAlgorithm, holds);
    FirstOfThree(KnownKey, GoodSignature, IsObject, holds);
    FirstOfThree(Typed(Exp), Typed(Nbf), Typed(Iat), holds);
  }

  /** A token of another algorithm that is no JWS beyond its header: malformed by the profile, not by the code. */
  lemma DivergingHeader(cfg: Config, alg: Bytes, verdict: KeySet.Verdict, now: int)
    requires ValidConfig(cfg) && alg != [] && alg !in cfg.algorithms
    ensures var parts := Parts(Some(alg), false, verdict, None, true);
            && Decide(cfg, parts, now) == Err(InvalidToken(Algorithm))
            && Promised(cfg, parts, now) == Err(InvalidToken(Malformed))
  {
    var holds := Read(cfg, Parts(Some(alg), false, verdict, None, true), now);
    DocumentedFirst(cfg, holds);
    FirstOfThree(NamesAlgorithm, Parses, AllowedAlgorithm, holds);
  }
}
