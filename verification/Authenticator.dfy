/** One request through the authenticator: token, readiness, verification, authorization, identity, record. */
module Authenticator {
  import opened Wrappers
  import opened Text
  import KeySet
  import CacheProtocol
  import CacheTheorems
  import Token
  import Precedence
  import Identity
  import Rejections

  datatype Refused = NoToken | NotReady | Rejected(refusal: Token.Refusal)

  function ReasonOf(r: Refused): Rejections.Reason {
    match r
    case NoToken => Rejections.NoToken
    case NotReady => Rejections.NotReady
    case Rejected(InvalidToken(_)) => Rejections.InvalidToken
    case Rejected(MissingScope) => Rejections.MissingScope
    case Rejected(MissingClaim(_)) => Rejections.MissingClaim
  }

  /** Which counter a refusal belongs to. */
  predicate CountedAs(r: Refused, why: Rejections.Reason) {
    match why
    case NoToken => r.NoToken?
    case NotReady => r.NotReady?
    case InvalidToken => r.Rejected? && r.refusal.InvalidToken?
    case MissingScope => r.Rejected? && r.refusal.MissingScope?
    case MissingClaim => r.Rejected? && r.refusal.MissingClaim?
  }

  function FaultText(f: Token.Fault): Bytes {
    match f
    case Malformed => "malformed"
    case Algorithm => "unsupported alg"
    case UnknownKid => "unknown kid"
    case Signature => "bad signature"
    case Issuer => "wrong iss"
    case Audience => "wrong aud"
    case NoExpiry => "missing exp"
    case Expired => "expired"
    case NotYetValid => "not yet valid"
    case IssuedInFuture => "issued in the future"
  }

  /** A refusal's text, all that is left of it when the listener hands it on. */
  function ErrorText(r: Refused, scope: Bytes): Bytes {
    match r
    case NoToken => "no token"
    case NotReady => "not ready"
    case Rejected(InvalidToken(fault)) => "invalid token: " + FaultText(fault)
    case Rejected(MissingScope) => "missing scope: " + scope
    case Rejected(MissingClaim(name)) => "missing claim: " + name
  }

  lemma FaultTextsDiffer(a: Token.Fault, b: Token.Fault)
    ensures FaultText(a) == FaultText(b) <==> a == b
  {
    var s, t := FaultText(a), FaultText(b);
    if a != b {
      assert |s| != |t| || s[0] != t[0] || s[6] != t[6];
    }
  }

  /** The text tells one refusal from every other. */
  lemma TextsTellApart(a: Refused, b: Refused, scope: Bytes)
    ensures ErrorText(a, scope) == ErrorText(b, scope) <==> a == b
  {
    var s, t := ErrorText(a, scope), ErrorText(b, scope);
    if s == t {
      assert s[0] == t[0] && s[2] == t[2];
      if s[0] == 'i' {
        assert s[15..] == t[15..] && s[15..] == FaultText(a.refusal.fault) && t[15..] == FaultText(b.refusal.fault);
        FaultTextsDiffer(a.refusal.fault, b.refusal.fault);
      } else if s[0] == 'm' {
        assert s[8] == t[8];
        assert s[15..] == t[15..];
        if s[8] == 'c' {
          assert s[15..] == a.refusal.name && t[15..] == b.refusal.name;
        }
      }
    }
  }

  function Total(counts: map<Rejections.Reason, nat>, why: Rejections.Reason): nat {
    if why in counts then counts[why] else 0
  }

  /** A compact token as the library reads it; `verifies` is the signature check with a key. */
  datatype Compact = Compact(alg: Option<Bytes>, parses: bool, signatures: nat, kid: Bytes,
                             verifies: KeySet.Key -> bool, claims: Option<Token.Claims>, whole: bool)

  /**
   What the request meets outside the authenticator: the verifier's, the cache's and the
   record's readings of the clock, what a JWKS fetch would come back with, and the order in
   which the claim map is iterated.
   */
  datatype World = World(now: int, missAt: int, recordAt: int, response: KeySet.Response, order: seq<Bytes>)

  /** The token, with what that cache makes of its signature. */
  function PartsOf(cache: KeySet.Cache, token: Compact, w: World): Token.Parts {
    var alg := if token.alg.Some? then token.alg.value else [];
    var verdict := KeySet.SignatureVerdict(cache, token.signatures, token.kid, alg, w.missAt, w.response,
                                           token.verifies);
    Token.Parts(token.alg, token.parses, verdict, token.claims, token.whole)
  }

  /** A cached public signing key, fit for the token's header, verifies its signature. */
  ghost predicate VouchedFor(keys: seq<KeySet.Key>, token: Compact) {
    token.alg.Some?
    && exists key :: KeySet.Vouches(key, keys, token.kid, token.alg.value, token.verifies) && KeySet.Usable(key)
  }

  class Authenticator {
    const config: Token.Config
    const claimAttributes: Identity.Mapping
    const resourceAttributes: Identity.Mapping
    const rejections: Rejections.Recorder
    var keys: KeySet.Store?

    constructor (config: Token.Config, claimAttributes: Identity.Mapping, resourceAttributes: Identity.Mapping,
                 interval: int)
      requires Token.ValidConfig(config)
      ensures this.config == config && keys == null && fresh(rejections) && Valid()
      ensures this.claimAttributes == claimAttributes && this.resourceAttributes == resourceAttributes
    {
      this.config, this.claimAttributes, this.resourceAttributes := config, claimAttributes, resourceAttributes;
      rejections := new Rejections.Recorder(interval);
      keys := null;
    }

    ghost predicate Valid()
      reads this, keys
    {
      Token.ValidConfig(config) && (keys != null ==> KeySet.Trustworthy(keys.keys))
    }

    /** The provider hands its loaded key set over, once. */
    method Ready(loaded: KeySet.Store)
      requires Valid() && KeySet.Trustworthy(loaded.keys)
      modifies this`keys
      ensures Valid() && keys == loaded
    {
      keys := loaded;
    }

    /** `verify`: the key set is asked only about a well-formed token of an allowed algorithm. */
    method Verify(store: KeySet.Store, token: Compact, w: World) returns (r: Result<Token.Claims, Token.Refusal>)
      requires KeySet.Trustworthy(store.keys)
      modifies store
      ensures KeySet.Trustworthy(store.keys)
      ensures r == Token.Verified(config, PartsOf(old(store.View()), token, w), w.now)
      ensures r.Ok? ==> VouchedFor(store.keys, token)
      ensures !Token.HeaderRule(config, PartsOf(old(store.View()), token, w)) ==> store.View() == old(store.View())
    {
      if token.alg.None? || token.alg.value == [] {
        return Err(Token.InvalidToken(Token.Malformed));
      }
      if token.alg.value !in config.algorithms {
        return Err(Token.InvalidToken(Token.Algorithm));
      }
      if !token.parses {
        return Err(Token.InvalidToken(Token.Malformed));
      }
      var verdict := store.VerifySignature(token.signatures, token.kid, token.alg.value, w.missAt, w.response,
                                           token.verifies);
      if verdict.UnknownKey? {
        return Err(Token.InvalidToken(Token.UnknownKid));
      }
      if verdict.BadSignature? {
        return Err(Token.InvalidToken(Token.Signature));
      }
      if token.claims.None? {
        return Err(Token.InvalidToken(Token.Malformed));
      }
      var fault := Token.Registered(config, token.claims.value, w.now);
      return if fault.Some? then Err(Token.InvalidToken(fault.value)) else Ok(token.claims.value);
    }

    /**
     `Authenticate`. A request is refused exactly when it has no token, the provider is not
     ready, or a rule is broken, and then for the first one; a refusal raises its own reason's
     count by one and no other. An accepted request changes no count, was vouched for by a
     cached key, and carries its own token's identity.
     */
    method Authenticate(token: Option<Compact>, w: World) returns (r: Result<Identity.Mapping, Refused>)
      requires Valid() && Identity.Enumerates(w.order, claimAttributes)
      modifies rejections, keys
      ensures Valid()
      ensures r.Ok? <==> token.Some? && keys != null
                         && Token.Acceptable(config, PartsOf(old(keys.View()), token.value, w), w.now)
      ensures r.Ok? ==> && rejections.counts == old(rejections.counts) && rejections.windows == old(rejections.windows)
                        && VouchedFor(keys.keys, token.value) && token.value.claims.Some?
                        && r.value == Identity.AuthData(token.value.claims.value, claimAttributes, resourceAttributes,
                                                        w.order)
      ensures r.Err? ==>
                forall why :: Total(rejections.counts, why) == Total(old(rejections.counts), why) +
                              if CountedAs(r.error, why) then 1 else 0
      ensures r == Err(NoToken) <==> token.None?
      ensures r == Err(NotReady) <==> token.Some? && keys == null
      ensures r.Err? && r.error.Rejected? ==>
                && token.Some? && keys != null
                && var parts := PartsOf(old(keys.View()), token.value, w);
                   Precedence.Answer(parts, Precedence.CodeOrder(config), Precedence.Judge(config, parts, w.now)) ==
                   Err(r.error.refusal)
    {
      if token.None? {
        r := Refuse(NoToken, w.recordAt);
        return;
      }
      if keys == null {
        r := Refuse(NotReady, w.recordAt);
        return;
      }
      ghost var parts := PartsOf(keys.View(), token.value, w);
      Token.AcceptedIff(config, parts, w.now);
      Precedence.DecidesInOrder(config, parts, w.now);
      var verified := Verify(keys, token.value, w);
      if verified.Err? {
        r := Refuse(Rejected(verified.error), w.recordAt);
        return;
      }
      var refusal := Token.Authorize(config, verified.value);
      if refusal.Some? {
        r := Refuse(Rejected(refusal.value), w.recordAt);
        return;
      }
      var auth := Identity.NewAuthData(verified.value, claimAttributes, resourceAttributes, w.order);
      return Ok(auth);
    }

    method Refuse(why: Refused, now: int) returns (r: Result<Identity.Mapping, Refused>)
      modifies rejections
      ensures r == Err(why)
      ensures forall other :: Total(rejections.counts, other) ==
                              Total(old(rejections.counts), other) + if CountedAs(why, other) then 1 else 0
    {
      var warning := rejections.Record(ReasonOf(why), now);
      return Err(why);
    }
  }

  // ---------------------------------------------------------- under concurrency

  /** The token, with what the key a call came away with makes of its signature. */
  function PartsWith(key: Option<KeySet.Key>, token: Compact): Token.Parts {
    var verdict := if token.signatures != 1 then KeySet.BadSignature
                   else match key
                        case None => KeySet.UnknownKey
                        case Some(k) => if token.verifies(k) then KeySet.Payload else KeySet.BadSignature;
    Token.Parts(token.alg, token.parses, verdict, token.claims, token.whole)
  }

  /**
   Whatever other calls and scheduled refreshes come between its steps, a token is accepted only
   if a public signing key fit for its header, in the cache at one of the call's own lookups,
   verifies it; and it keeps every rule.
   */
  lemma AcceptedInAnyRun(r: CacheProtocol.Run, j: nat, id: CacheProtocol.CallId, config: Token.Config, token: Compact,
                         now: int)
    returns (i: nat)
    requires CacheProtocol.Valid(r) && j < |r.states| && id in r.states[j].calls && r.states[j].calls[id].Answered?
    requires token.alg.Some? && r.states[j].calls[id].kid == token.kid && r.states[j].calls[id].alg == token.alg.value
    requires Token.ValidConfig(config)
    requires Token.Decide(config, PartsWith(r.states[j].calls[id].key, token), now).Ok?
    ensures CacheTheorems.DuringCall(r, id, i, j) && i < j && r.states[i].cache.Some?
    ensures r.steps[i] == CacheProtocol.FirstLookup(id) || r.steps[i] == CacheProtocol.SecondLookup(id)
    ensures VouchedFor(r.states[i].cache.value.keys, token)
    ensures Token.Acceptable(config, PartsWith(r.states[j].calls[id].key, token), now)
  {
    Token.AcceptedIff(config, PartsWith(r.states[j].calls[id].key, token), now);
    i := CacheTheorems.UsedKeyWasCached(r, j, id);
    var key := r.states[j].calls[id].key.value;
    assert KeySet.Vouches(key, r.states[i].cache.value.keys, token.kid, token.alg.value, token.verifies);
  }

  /** A token refused for its kid was absent at the call's first lookup, and again later or its fetch failed. */
  lemma UnknownInAnyRun(r: CacheProtocol.Run, j: nat, id: CacheProtocol.CallId, config: Token.Config, token: Compact,
                        now: int)
    returns (first: nat, second: nat)
    requires CacheProtocol.Valid(r) && j < |r.states| && id in r.states[j].calls && r.states[j].calls[id].Answered?
    requires Token.Verified(config, PartsWith(r.states[j].calls[id].key, token), now) ==
             Err(Token.InvalidToken(Token.UnknownKid))
    ensures CacheTheorems.DuringCall(r, id, first, j) && first < second < j
    ensures var p := r.states[j].calls[id];
            && r.steps[first] == CacheProtocol.FirstLookup(id) && CacheTheorems.Holds(r, first, p.kid, p.alg, None)
            && (|| CacheTheorems.OwnFetchFailed(r, second, id)
                || (r.steps[second] == CacheProtocol.SecondLookup(id)
                    && CacheTheorems.Holds(r, second, p.kid, p.alg, None)))
  {
    first, second := CacheTheorems.UnknownKeyMeansAbsent(r, j, id);
  }
}
