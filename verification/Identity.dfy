/**
 Identity stamping, end to end: the mapping's validation, the identity an accepted token
 carries into the pipeline, and what the two processors then make of a client's span and
 resource.

 The processors themselves are the collector's; their actions get the small semantics the
 rendered pipeline relies on, including that an upsert whose context key is absent is skipped.
 */
module Identity {
  import opened Wrappers
  import opened Text
  import opened Token
  import opened KeyValueList
  import LastWins

  /** A client's attribute value; only texts are ever compared. */
  datatype Value = TextValue(text: Bytes) | OtherValue(n: int)

  type Attributes = map<Bytes, Value>

  // -------------------------------------------------------------- validation

  datatype MappingFault =
    | NoClaims
    | NoAttribute(claim: Bytes)
    | ClientOwnedTarget(attribute: Bytes)
    | SharedTarget(first: Bytes, second: Bytes, attribute: Bytes)
    | ClientOwnedResource(key: Bytes)
    | ResourceIsTarget(key: Bytes, claim: Bytes)

  predicate ClientOwned(key: Bytes) {
    key == "service.name" || key == "service.version"
  }

  /** Each claim to one attribute of its own, and the client's own keys left alone. */
  ghost predicate ValidMapping(claims: seq<KeyValue>, resource: seq<KeyValue>) {
    && claims != []
    && (forall i :: 0 <= i < |claims| ==> ValidTarget(claims[i].value))
    && (forall i, j :: 0 <= i < j < |claims| ==> claims[i].value != claims[j].value)
    && (forall i :: 0 <= i < |resource| ==> ValidResourceKey(claims, resource[i].key))
  }

  predicate ValidTarget(attribute: Bytes) {
    attribute != [] && attribute != "service.name" && attribute != "service.version"
  }

  predicate IsTarget(claims: seq<KeyValue>, attribute: Bytes) {
    exists i :: 0 <= i < |claims| && claims[i].value == attribute
  }

  predicate ValidResourceKey(claims: seq<KeyValue>, key: Bytes) {
    key != "service.name" && key != "service.version" && !IsTarget(claims, key)
  }

  /** The map entry of a key, or the zero value, as Go reads it. */
  function Entry(m: map<Bytes, Bytes>, key: Bytes): Bytes {
    if key in m then m[key] else []
  }

  /** The fault is really there, at the claims and attributes it names. */
  ghost predicate Faulty(claims: seq<KeyValue>, resource: seq<KeyValue>, f: MappingFault) {
    match f
    case NoClaims => claims == []
    case NoAttribute(claim) => KeyValue(claim, []) in claims
    case ClientOwnedTarget(attribute) => ClientOwned(attribute) && IsTarget(claims, attribute)
    case SharedTarget(first, second, attribute) =>
      exists i, j :: 0 <= i < j < |claims| && claims[i] == KeyValue(first, attribute)
                     && claims[j] == KeyValue(second, attribute)
    case ClientOwnedResource(key) => ClientOwned(key) && exists i :: 0 <= i < |resource| && resource[i].key == key
    case ResourceIsTarget(key, claim) =>
      KeyValue(claim, key) in claims && exists i :: 0 <= i < |resource| && resource[i].key == key
  }

  /**
   `IdentitySettings.Validate`. A list from the parser has no empty key; a claim without a
   name would not be noticed as sharing its target.
   */
  method Validate(claims: seq<KeyValue>, resource: seq<KeyValue>) returns (errs: seq<MappingFault>)
    ensures (forall i :: 0 <= i < |claims| ==> claims[i].key != []) ==>
              (errs == [] <==> ValidMapping(claims, resource))
    ensures forall f :: f in errs ==> Faulty(claims, resource, f)
  {
    var targets;
    errs, targets := ValidateClaims(claims, resource);
    ghost var named := forall i :: 0 <= i < |claims| ==> claims[i].key != [];
    ghost var soFar := errs;
    for i := 0 to |resource|
      invariant named ==> (errs == [] <==>
                             soFar == [] && forall j :: 0 <= j < i ==> ValidResourceKey(claims, resource[j].key))
      invariant forall f :: f in errs ==> Faulty(claims, resource, f)
    {
      var kv := resource[i];
      if ClientOwned(kv.key) {
        errs := errs + [ClientOwnedResource(kv.key)];
      } else if Entry(targets, kv.key) != [] {
        errs := errs + [ResourceIsTarget(kv.key, targets[kv.key])];
      }
    }
  }

  /** Its first loop: the claims, and the claim last mapped to each attribute. */
  method ValidateClaims(claims: seq<KeyValue>, ghost resource: seq<KeyValue>)
    returns (errs: seq<MappingFault>, targets: map<Bytes, Bytes>)
    ensures forall t :: t in targets <==> IsTarget(claims, t)
    ensures forall t :: t in targets ==> KeyValue(targets[t], t) in claims
    ensures (forall i :: 0 <= i < |claims| ==> claims[i].key != []) ==>
              && (forall t :: t in targets ==> targets[t] != [])
              && (errs == [] <==> claims != [] && GoodTargets(claims, |claims|))
    ensures forall f :: f in errs ==> Faulty(claims, resource, f)
  {
    errs := if claims == [] then [NoClaims] else [];
    targets := map[];
    ghost var named := forall i :: 0 <= i < |claims| ==> claims[i].key != [];
    for i := 0 to |claims|
      invariant forall t :: t in targets <==> exists j :: 0 <= j < i && claims[j].value == t
      invariant forall t :: t in targets ==> exists j :: 0 <= j < i && claims[j] == KeyValue(targets[t], t)
      invariant forall f :: f in errs ==> Faulty(claims, resource, f)
      invariant named ==> forall t :: t in targets ==> targets[t] != []
      invariant named ==> (errs == [] <==> claims != [] && GoodTargets(claims, i))
    {
      var kv := claims[i];
      if kv.value == [] {
        errs := errs + [NoAttribute(kv.key)];
      } else if ClientOwned(kv.value) {
        errs := errs + [ClientOwnedTarget(kv.value)];
      } else if Entry(targets, kv.value) != [] {
        errs := errs + [SharedTarget(targets[kv.value], kv.key, kv.value)];
      }
      targets := targets[kv.value := kv.key];
    }
  }

  ghost predicate GoodTargets(claims: seq<KeyValue>, n: nat)
    requires n <= |claims|
  {
    && (forall i :: 0 <= i < n ==> ValidTarget(claims[i].value))
    && (forall i, j :: 0 <= i < j < n ==> claims[i].value != claims[j].value)
  }

  // ------------------------------------------------------------------- auth

  /** The mapping of claims, and of static attributes, as the extension's configuration holds them. */
  type Mapping = map<Bytes, Bytes>

  /** The claim is a non-empty string in the token. */
  ghost predicate Carries(c: Claims, claim: Bytes, text: Bytes) {
    claim in c && c[claim] == Str(text) && text != []
  }

  /** Some mapped claim of the token gives the attribute this text. */
  ghost predicate Gives(c: Claims, claimAttributes: Mapping, attribute: Bytes, text: Bytes) {
    exists claim :: claim in claimAttributes && claimAttributes[claim] == attribute && Carries(c, claim, text)
  }

  /** The keys of the map, each once, in the order Go happens to iterate it. */
  ghost predicate Enumerates(order: seq<Bytes>, m: Mapping) {
    && (forall claim :: claim in order <==> claim in m)
    && (forall i, j :: 0 <= i < j < |order| ==> order[i] != order[j])
  }

  /** The attributes the claims give, a later claim of the order over an earlier one. */
  function AuthIn(c: Claims, m: Mapping, order: seq<Bytes>): Mapping
    requires forall claim :: claim in order ==> claim in m
  {
    if order == [] then map[]
    else
      var n := |order| - 1;
      var before, claim := AuthIn(c, m, order[..n]), order[n];
      if claim in c && c[claim].Str? && c[claim].text != [] then before[m[claim] := c[claim].text] else before
  }

  /** What `newAuthData` makes of a token when the claim map is iterated in that order. */
  function AuthData(c: Claims, m: Mapping, fixed: Mapping, order: seq<Bytes>): Mapping
    requires forall claim :: claim in order ==> claim in m
  {
    AuthIn(c, m, order) + fixed
  }

  /** `newAuthData`. */
  method NewAuthData(c: Claims, claimAttributes: Mapping, resourceAttributes: Mapping, order: seq<Bytes>)
    returns (auth: Mapping)
    requires Enumerates(order, claimAttributes)
    ensures auth == AuthData(c, claimAttributes, resourceAttributes, order)
  {
    auth := map[];
    for i := 0 to |order|
      invariant auth == AuthIn(c, claimAttributes, order[..i])
    {
      assert order[..i + 1][..i] == order[..i];
      var claim := order[i];
      if claim in c && c[claim].Str? && c[claim].text != [] {
        auth := auth[claimAttributes[claim] := c[claim].text];
      }
    }
    assert order[..|order|] == order;
    auth := auth + resourceAttributes;
  }

  /** An order's claims give exactly the attributes they are mapped to, each one of its texts. */
  lemma {:induction false} AuthInSound(c: Claims, m: Mapping, order: seq<Bytes>, a: Bytes)
    requires forall claim :: claim in order ==> claim in m
    ensures a in AuthIn(c, m, order) <==>
            exists claim, text :: claim in order && m[claim] == a && Carries(c, claim, text)
    ensures a in AuthIn(c, m, order) ==> Gives(c, m, a, AuthIn(c, m, order)[a])
  {
    if order != [] {
      var n := |order| - 1;
      var front, last := order[..n], order[n];
      AuthInSound(c, m, front, a);
      assert order == front + [last];
      assert forall text :: Carries(c, last, text) ==> c[last] == Str(text);
      if last in c && c[last].Str? && c[last].text != [] {
        assert Carries(c, last, c[last].text);
      }
    }
  }

  /** Claims that agree with `auth`, coming last, decide what it holds. */
  lemma {:induction false} LastClaimsDecide(c: Claims, m: Mapping, first: seq<Bytes>, last: seq<Bytes>, auth: Mapping,
                                            claim: Bytes)
    requires forall x :: x in first + last ==> x in m
    requires forall x, text :: x in last && Carries(c, x, text) ==> m[x] in auth && auth[m[x]] == text
    requires claim in last && exists text :: Carries(c, claim, text)
    ensures m[claim] in AuthIn(c, m, first + last) && AuthIn(c, m, first + last)[m[claim]] == auth[m[claim]]
    decreases |last|
  {
    var n := |last| - 1;
    assert (first + last)[..|first| + n] == first + last[..n];
    if last[n] in c && c[last[n]].Str? && c[last[n]].text != [] {
      assert Carries(c, last[n], c[last[n]].text);
    }
    if claim in last[..n] {
      LastClaimsDecide(c, m, first, last[..n], auth, claim);
    }
  }

  /** What an identity may be: static attributes as they stand, every other one a text some claim gives it. */
  ghost predicate PossibleAuth(c: Claims, m: Mapping, fixed: Mapping, auth: Mapping) {
    && (forall a :: a in fixed ==> a in auth && auth[a] == fixed[a])
    && (forall a :: a in auth && a !in fixed ==> Gives(c, m, a, auth[a]))
    && (forall a, text :: Gives(c, m, a, text) ==> a in auth)
  }

  /** Every order gives such an identity. */
  lemma EveryOrderIsPossible(c: Claims, m: Mapping, fixed: Mapping, order: seq<Bytes>)
    requires Enumerates(order, m)
    ensures PossibleAuth(c, m, fixed, AuthData(c, m, fixed, order))
  {
    var auth := AuthData(c, m, fixed, order);
    forall a | a in auth && a !in fixed ensures Gives(c, m, a, auth[a]) {
      AuthInSound(c, m, order, a);
    }
    forall a, text | Gives(c, m, a, text) ensures a in auth {
      AuthInSound(c, m, order, a);
    }
  }

  lemma {:induction false} Listing(s: set<Bytes>) returns (order: seq<Bytes>)
    ensures forall x :: x in order <==> x in s
    ensures forall i, j :: 0 <= i < j < |order| ==> order[i] != order[j]
  {
    if s == {} {
      order := [];
    } else {
      var x :| x in s;
      var rest := Listing(s - {x});
      order := [x] + rest;
    }
  }

  lemma ListedLast(m: Mapping, agreeing: set<Bytes>) returns (first: seq<Bytes>, last: seq<Bytes>)
    requires agreeing <= m.Keys
    ensures Enumerates(first + last, m) && forall x :: x in last <==> x in agreeing
  {
    first := Listing(m.Keys - agreeing);
    last := Listing(agreeing);
    var order, n := first + last, |first|;
    forall i, j | 0 <= i < j < |order| ensures order[i] != order[j] {
      if i < n <= j {
        assert first[i] in first && last[j - n] in last;
      }
    }
  }

  /** An order that comes to that identity: the claims that agree with it last. */
  lemma SomeOrderGives(c: Claims, m: Mapping, fixed: Mapping, auth: Mapping) returns (order: seq<Bytes>)
    requires PossibleAuth(c, m, fixed, auth)
    ensures Enumerates(order, m) && AuthData(c, m, fixed, order) == auth
  {
    var agreeing := set claim | claim in m && m[claim] in auth && Carries(c, claim, auth[m[claim]]);
    var first, last := ListedLast(m, agreeing);
    order := first + last;
    var made := AuthData(c, m, fixed, order);
    EveryOrderIsPossible(c, m, fixed, order);
    forall a | a in auth && a !in fixed ensures a in made && made[a] == auth[a] {
      AgreedAttribute(c, m, first, last, auth, a);
    }
    SameAuth(c, m, fixed, auth, made);
  }

  lemma AgreedAttribute(c: Claims, m: Mapping, first: seq<Bytes>, last: seq<Bytes>, auth: Mapping, a: Bytes)
    requires forall x :: x in first + last ==> x in m
    requires forall x :: x in last <==> x in m && m[x] in auth && Carries(c, x, auth[m[x]])
    requires a in auth && Gives(c, m, a, auth[a])
    ensures a in AuthIn(c, m, first + last) && AuthIn(c, m, first + last)[a] == auth[a]
  {
    var claim :| claim in m && m[claim] == a && Carries(c, claim, auth[a]);
    LastClaimsDecide(c, m, first, last, auth, claim);
  }

  lemma SameAuth(c: Claims, m: Mapping, fixed: Mapping, x: Mapping, y: Mapping)
    requires PossibleAuth(c, m, fixed, x) && PossibleAuth(c, m, fixed, y)
    requires forall a | a in x && a in y && a !in fixed :: x[a] == y[a]
    ensures x == y
  {
    forall a ensures a in x <==> a in y {
    }
    assert x.Keys == y.Keys;
  }

  /** No two claims give one attribute, other than a static one, different texts. */
  ghost predicate Unconflicted(c: Claims, m: Mapping, fixed: Mapping) {
    forall a, s, t :: a !in fixed && Gives(c, m, a, s) && Gives(c, m, a, t) ==> s == t
  }

  lemma SomeAuth(c: Claims, m: Mapping, fixed: Mapping, a: Bytes, s: Bytes) returns (auth: Mapping)
    requires a !in fixed && Gives(c, m, a, s)
    ensures PossibleAuth(c, m, fixed, auth) && auth[a] == s
  {
    var order := Listing(m.Keys);
    EveryOrderIsPossible(c, m, fixed, order);
    auth := AuthData(c, m, fixed, order)[a := s];
  }

  /** The orders all come to the same identity. */
  ghost predicate OrderIndependent(c: Claims, m: Mapping, fixed: Mapping) {
    forall p, q | Enumerates(p, m) && Enumerates(q, m) :: AuthData(c, m, fixed, p) == AuthData(c, m, fixed, q)
  }

  /** `newAuthData` depends on the iteration order exactly when two claims of the token conflict. */
  lemma OrderIndependentIff(c: Claims, m: Mapping, fixed: Mapping)
    ensures OrderIndependent(c, m, fixed) <==> Unconflicted(c, m, fixed)
  {
    if Unconflicted(c, m, fixed) {
      forall p, q | Enumerates(p, m) && Enumerates(q, m)
        ensures AuthData(c, m, fixed, p) == AuthData(c, m, fixed, q)
      {
        EveryOrderIsPossible(c, m, fixed, p);
        EveryOrderIsPossible(c, m, fixed, q);
        SameAuth(c, m, fixed, AuthData(c, m, fixed, p), AuthData(c, m, fixed, q));
      }
    } else {
      var a, s, t :| a !in fixed && Gives(c, m, a, s) && Gives(c, m, a, t) && s != t;
      var x := SomeAuth(c, m, fixed, a, s);
      var y := SomeAuth(c, m, fixed, a, t);
      var p := SomeOrderGives(c, m, fixed, x);
      var q := SomeOrderGives(c, m, fixed, y);
      assert AuthData(c, m, fixed, p)[a] != AuthData(c, m, fixed, q)[a];
    }
  }

  // -------------------------------------------- the extension's own validation

  datatype ExtensionFault = EmptyClaimAttribute | EmptyResourceKey | AttributeCollision(attribute: Bytes)

  /** No empty name on either side, and no claim mapped to a static attribute. */
  ghost predicate ValidExtension(m: Mapping, fixed: Mapping) {
    && (forall claim :: claim in m ==> claim != [] && m[claim] != [] && m[claim] !in fixed)
    && [] !in fixed
  }

  /** The part of `Config.Validate` that is about the two maps; `order` is how the claims are iterated. */
  method ValidateExtension(m: Mapping, fixed: Mapping, order: seq<Bytes>) returns (errs: seq<ExtensionFault>)
    requires Enumerates(order, m)
    ensures errs == [] <==> ValidExtension(m, fixed)
    ensures forall a :: AttributeCollision(a) in errs <==> a in fixed && exists claim :: claim in m && m[claim] == a
  {
    errs := [];
    for i := 0 to |order|
      invariant errs == [] && forall j :: 0 <= j < i ==> order[j] != [] && m[order[j]] != []
    {
      if order[i] == [] || m[order[i]] == [] {
        errs := [EmptyClaimAttribute];
        break;
      }
    }
    if [] in fixed {
      errs := errs + [EmptyResourceKey];
    }
    ghost var soFar := errs;
    for i := 0 to |order|
      invariant errs == [] <==> soFar == [] && forall j :: 0 <= j < i ==> m[order[j]] !in fixed
      invariant forall a :: AttributeCollision(a) in errs <==> a in fixed && exists j :: 0 <= j < i && m[order[j]] == a
    {
      if m[order[i]] in fixed {
        errs := errs + [AttributeCollision(m[order[i]])];
      }
    }
  }

  /**
   A mapping the extension accepts leaves no token's identity to the iteration order exactly
   when no two claims share a target. Its validation does not ask for that.
   */
  lemma MappingIsOrderIndependentIff(m: Mapping, fixed: Mapping)
    requires ValidExtension(m, fixed)
    ensures (forall c :: OrderIndependent(c, m, fixed)) <==> (forall x, y | x in m && y in m && m[x] == m[y] :: x == y)
  {
    if forall x, y | x in m && y in m && m[x] == m[y] :: x == y {
      forall c ensures OrderIndependent(c, m, fixed) {
        OrderIndependentIff(c, m, fixed);
      }
    } else {
      var x, y :| x in m && y in m && m[x] == m[y] && x != y;
      TwoClaimsConflict(m, fixed, x, y, "a", "b");
    }
  }

  /** A token in which two claims of one target differ. */
  lemma TwoClaimsConflict(m: Mapping, fixed: Mapping, x: Bytes, y: Bytes, s: Bytes, t: Bytes)
    requires x in m && y in m && x != y && m[x] == m[y] && m[x] !in fixed && s != [] && t != [] && s != t
    ensures !OrderIndependent(map[x := Str(s), y := Str(t)], m, fixed)
  {
    var c: Claims := map[x := Str(s), y := Str(t)];
    assert Carries(c, x, s) && Carries(c, y, t);
    assert Gives(c, m, m[x], s) && Gives(c, m, m[x], t);
    OrderIndependentIff(c, m, fixed);
  }

  /** One such mapping, which the extension accepts. */
  lemma SharedTargetIsAccepted()
    ensures var m: Mapping := map["sub" := "user.id", "email" := "user.id"];
            ValidExtension(m, map[]) && !OrderIndependent(map["sub" := Str("a"), "email" := Str("b")], m, map[])
  {
    var m: Mapping := map["sub" := "user.id", "email" := "user.id"];
    TwoClaimsConflict(m, map[], "sub", "email", "a", "b");
  }

  // -------------------------------------------------------------- processors

  datatype Action =
    | Delete(key: Bytes)
    | UpsertFromContext(key: Bytes, attribute: Bytes)
    | Upsert(key: Bytes, value: Bytes)

  function Act(action: Action, attrs: Attributes, auth: Mapping): Attributes {
    match action
    case Delete(key) => attrs - {key}
    case UpsertFromContext(key, a) => if a in auth then attrs[key := TextValue(auth[a])] else attrs
    case Upsert(key, value) => attrs[key := TextValue(value)]
  }

  function Run(actions: seq<Action>, attrs: Attributes, auth: Mapping): Attributes {
    if actions == [] then attrs
    else Act(actions[|actions| - 1], Run(actions[..|actions| - 1], attrs, auth), auth)
  }

  lemma {:induction false} RunAppend(a: seq<Action>, b: seq<Action>, attrs: Attributes, auth: Mapping)
    ensures Run(a + b, attrs, auth) == Run(b, Run(a, attrs, auth), auth)
  {
    if b == [] {
      assert a + b == a;
    } else {
      assert (a + b)[..|a + b| - 1] == a + b[..|b| - 1];
      RunAppend(a, b[..|b| - 1], attrs, auth);
    }
  }

  lemma RunOne(before: seq<Action>, action: Action, attrs: Attributes, auth: Mapping)
    ensures Run(before + [action], attrs, auth) == Act(action, Run(before, attrs, auth), auth)
  {
    assert (before + [action])[..|before|] == before;
  }

  /** `identityActions`: delete whatever the client sent, then take the token's. */
  method IdentityActions(claims: seq<KeyValue>) returns (actions: seq<Action>)
    ensures actions == StampActions(claims)
  {
    actions := [];
    for i := 0 to |claims|
      invariant actions == StampActions(claims[..i])
    {
      assert claims[..i + 1][..i] == claims[..i];
      actions := actions + [Delete(claims[i].value), UpsertFromContext(claims[i].value, claims[i].value)];
    }
    assert claims[..|claims|] == claims;
  }

  function StampActions(claims: seq<KeyValue>): seq<Action> {
    if claims == [] then []
    else
      var t := claims[|claims| - 1].value;
      StampActions(claims[..|claims| - 1]) + [Delete(t), UpsertFromContext(t, t)]
  }

  /** `resourceActions`: no target on the resource, and the deployment's attributes over the client's. */
  method ResourceActions(claims: seq<KeyValue>, resource: seq<KeyValue>) returns (actions: seq<Action>)
    ensures actions == Deletes(claims) + Upserts(resource)
  {
    actions := [];
    for i := 0 to |claims|
      invariant actions == Deletes(claims[..i])
    {
      assert claims[..i + 1][..i] == claims[..i];
      actions := actions + [Delete(claims[i].value)];
    }
    assert claims[..|claims|] == claims;
    for i := 0 to |resource|
      invariant actions == Deletes(claims) + Upserts(resource[..i])
    {
      assert resource[..i + 1][..i] == resource[..i];
      actions := actions + [Upsert(resource[i].key, resource[i].value)];
    }
    assert resource[..|resource|] == resource;
  }

  function Deletes(claims: seq<KeyValue>): seq<Action> {
    if claims == [] then [] else Deletes(claims[..|claims| - 1]) + [Delete(claims[|claims| - 1].value)]
  }

  function Upserts(resource: seq<KeyValue>): seq<Action> {
    if resource == [] then []
    else
      var last := resource[|resource| - 1];
      Upserts(resource[..|resource| - 1]) + [Upsert(last.key, last.value)]
  }

  /** What the stamped span holds under one key. */
  ghost predicate Stamped(claims: seq<KeyValue>, attrs: Attributes, auth: Mapping, after: Attributes, key: Bytes) {
    if IsTarget(claims, key) then
      if key in auth then key in after && after[key] == TextValue(auth[key]) else key !in after
    else (key in after <==> key in attrs) && (key in attrs ==> after[key] == attrs[key])
  }

  lemma {:induction false} StampExact(claims: seq<KeyValue>, attrs: Attributes, auth: Mapping, key: Bytes)
    ensures Stamped(claims, attrs, auth, Run(StampActions(claims), attrs, auth), key)
  {
    if claims != [] {
      var n := |claims| - 1;
      var front, t := claims[..n], claims[n].value;
      StampExact(front, attrs, auth, key);
      var before := StampActions(front);
      RunOne(before, Delete(t), attrs, auth);
      RunOne(before + [Delete(t)], UpsertFromContext(t, t), attrs, auth);
      assert before + [Delete(t)] + [UpsertFromContext(t, t)] == StampActions(claims);
      assert IsTarget(claims, key) <==> IsTarget(front, key) || key == t;
    }
  }

  lemma {:induction false} DeletesExact(claims: seq<KeyValue>, attrs: Attributes, auth: Mapping, key: Bytes)
    ensures var after := Run(Deletes(claims), attrs, auth);
            && (key in after <==> key in attrs && !IsTarget(claims, key))
            && (key in after ==> after[key] == attrs[key])
  {
    if claims != [] {
      var n := |claims| - 1;
      DeletesExact(claims[..n], attrs, auth, key);
      RunOne(Deletes(claims[..n]), Delete(claims[n].value), attrs, auth);
      assert IsTarget(claims, key) <==> IsTarget(claims[..n], key) || key == claims[n].value;
    }
  }

  lemma {:induction false} UpsertsMiss(resource: seq<KeyValue>, attrs: Attributes, auth: Mapping, key: Bytes)
    requires forall i :: 0 <= i < |resource| ==> resource[i].key != key
    ensures var after := Run(Upserts(resource), attrs, auth);
            (key in after <==> key in attrs) && (key in attrs ==> after[key] == attrs[key])
  {
    if resource != [] {
      var n := |resource| - 1;
      UpsertsMiss(resource[..n], attrs, auth, key);
      RunOne(Upserts(resource[..n]), Upsert(resource[n].key, resource[n].value), attrs, auth);
    }
  }

  lemma {:induction false} UpsertsHit(resource: seq<KeyValue>, attrs: Attributes, auth: Mapping, i: nat)
    requires i < |resource| && forall j :: i < j < |resource| ==> resource[j].key != resource[i].key
    ensures var after := Run(Upserts(resource), attrs, auth);
            resource[i].key in after && after[resource[i].key] == TextValue(resource[i].value)
  {
    var n := |resource| - 1;
    RunOne(Upserts(resource[..n]), Upsert(resource[n].key, resource[n].value), attrs, auth);
    if i < n {
      UpsertsHit(resource[..n], attrs, auth, i);
    }
  }

  // -------------------------------------------------------------- end to end

  /** The list as the map the template renders it into. */
  ghost function MapOf(l: seq<KeyValue>): Mapping
    requires LastWins.Distinct(l, KeyOf)
  {
    map kv | kv in l :: kv.key := kv.value
  }

  /**
   A validated mapping, and the static attributes the extension adds of its own: none in the
   shipped pipeline, any that are no claim's target in a mounted one.
   */
  ghost predicate Configured(claims: seq<KeyValue>, resource: seq<KeyValue>, fixed: Mapping) {
    && WellFormed(claims) && WellFormed(resource) && ValidMapping(claims, resource)
    && (forall a :: a in fixed ==> !IsTarget(claims, a))
  }

  /** With a valid mapping one claim feeds each target. */
  lemma TargetFedByItsClaim(c: Claims, claims: seq<KeyValue>, resource: seq<KeyValue>, i: nat, text: Bytes)
    requires WellFormed(claims) && ValidMapping(claims, resource) && i < |claims|
    ensures Gives(c, MapOf(claims), claims[i].value, text) <==> Carries(c, claims[i].key, text)
  {
    var t, m := claims[i].value, MapOf(claims);
    assert claims[i] in claims && m[claims[i].key] == t;
    if claim :| claim in m && m[claim] == t && Carries(c, claim, text) {
      var kv :| kv in claims && kv.key == claim && kv.value == t;
      var j :| 0 <= j < |claims| && claims[j] == kv;
      assert i == j;
    }
  }

  lemma TargetInAuth(c: Claims, claims: seq<KeyValue>, resource: seq<KeyValue>, fixed: Mapping, order: seq<Bytes>,
                     i: nat)
    requires Configured(claims, resource, fixed) && Enumerates(order, MapOf(claims)) && i < |claims|
    ensures var t, auth := claims[i].value, AuthData(c, MapOf(claims), fixed, order);
            && (t in auth <==> exists text :: Carries(c, claims[i].key, text))
            && (t in auth ==> Carries(c, claims[i].key, auth[t]))
  {
    assert IsTarget(claims, claims[i].value);
    EveryOrderIsPossible(c, MapOf(claims), fixed, order);
    forall text ensures Gives(c, MapOf(claims), claims[i].value, text) <==> Carries(c, claims[i].key, text) {
      TargetFedByItsClaim(c, claims, resource, i, text);
    }
  }

  /** The claim's text when it is a non-empty string, and nothing otherwise. */
  function ClaimText(c: Claims, claim: Bytes): (v: Option<Value>)
    ensures forall text :: Carries(c, claim, text) <==> v == Some(TextValue(text))
  {
    if claim in c && c[claim].Str? && c[claim].text != [] then Some(TextValue(c[claim].text)) else None
  }

  function Lookup(attrs: Attributes, key: Bytes): Option<Value> {
    if key in attrs then Some(attrs[key]) else None
  }

  /** Each target is the token's claim when that is a non-empty string and absent otherwise; the rest is as sent. */
  ghost predicate CarriesIdentity(c: Claims, claims: seq<KeyValue>, sent: Attributes, span: Attributes) {
    && (forall i :: 0 <= i < |claims| ==> Lookup(span, claims[i].value) == ClaimText(c, claims[i].key))
    && (forall key :: !IsTarget(claims, key) ==> Lookup(span, key) == Lookup(sent, key))
    && Lookup(span, "service.name") == Lookup(sent, "service.name")
    && Lookup(span, "service.version") == Lookup(sent, "service.version")
  }

  /** The span carries the token's identity, whatever the client sent and in whatever order the claims were read. */
  lemma SpanCarriesTokenIdentity(c: Claims, claims: seq<KeyValue>, resource: seq<KeyValue>, fixed: Mapping,
                                 order: seq<Bytes>, sent: Attributes)
    requires Configured(claims, resource, fixed) && Enumerates(order, MapOf(claims))
    ensures CarriesIdentity(c, claims, sent, Run(StampActions(claims), sent, AuthData(c, MapOf(claims), fixed, order)))
  {
    var auth := AuthData(c, MapOf(claims), fixed, order);
    var span := Run(StampActions(claims), sent, auth);
    forall i | 0 <= i < |claims| ensures Lookup(span, claims[i].value) == ClaimText(c, claims[i].key) {
      TargetInAuth(c, claims, resource, fixed, order, i);
      assert IsTarget(claims, claims[i].value);
      StampExact(claims, sent, auth, claims[i].value);
    }
    forall key | !IsTarget(claims, key) ensures Lookup(span, key) == Lookup(sent, key) {
      StampExact(claims, sent, auth, key);
    }
    forall key | ClientOwned(key) ensures !IsTarget(claims, key) {
    }
  }

  /** No target at all, the deployment's attributes as configured, and everything else as the client sent it. */
  ghost predicate CarriesDeployment(claims: seq<KeyValue>, resource: seq<KeyValue>, sent: Attributes,
                                    after: Attributes) {
    && (forall key :: IsTarget(claims, key) ==> key !in after)
    && (forall i :: 0 <= i < |resource| ==> Lookup(after, resource[i].key) == Some(TextValue(resource[i].value)))
    && (forall key | !IsTarget(claims, key) && (forall i :: 0 <= i < |resource| ==> resource[i].key != key) ::
          Lookup(after, key) == Lookup(sent, key))
    && Lookup(after, "service.name") == Lookup(sent, "service.name")
    && Lookup(after, "service.version") == Lookup(sent, "service.version")
  }

  /** The resource carries no identity, whatever is in the request's context. */
  lemma ResourceCarriesNoIdentity(claims: seq<KeyValue>, resource: seq<KeyValue>, sent: Attributes, context: Mapping)
    requires WellFormed(resource) && ValidMapping(claims, resource)
    ensures CarriesDeployment(claims, resource, sent, Run(Deletes(claims) + Upserts(resource), sent, context))
  {
    var after := Run(Deletes(claims) + Upserts(resource), sent, context);
    forall key | forall i :: 0 <= i < |resource| ==> resource[i].key != key
      ensures Lookup(after, key) == if IsTarget(claims, key) then None else Lookup(sent, key)
    {
      ResourceElsewhere(claims, resource, context, sent, key);
    }
    forall i | 0 <= i < |resource| ensures Lookup(after, resource[i].key) == Some(TextValue(resource[i].value)) {
      ResourceStated(claims, resource, context, sent, i);
    }
    forall key | IsTarget(claims, key) || ClientOwned(key)
      ensures forall i :: 0 <= i < |resource| ==> resource[i].key != key
      ensures ClientOwned(key) ==> !IsTarget(claims, key)
    {
      ReservedKey(claims, resource, key);
    }
  }

  lemma ReservedKey(claims: seq<KeyValue>, resource: seq<KeyValue>, key: Bytes)
    requires ValidMapping(claims, resource) && (IsTarget(claims, key) || ClientOwned(key))
    ensures forall i :: 0 <= i < |resource| ==> resource[i].key != key
    ensures ClientOwned(key) ==> !IsTarget(claims, key)
  {
    forall i | 0 <= i < |resource| ensures resource[i].key != key {
      assert ValidResourceKey(claims, resource[i].key);
    }
  }

  lemma ResourceElsewhere(claims: seq<KeyValue>, resource: seq<KeyValue>, auth: Mapping, sent: Attributes, key: Bytes)
    requires forall i :: 0 <= i < |resource| ==> resource[i].key != key
    ensures Lookup(Run(Deletes(claims) + Upserts(resource), sent, auth), key) ==
            if IsTarget(claims, key) then None else Lookup(sent, key)
  {
    RunAppend(Deletes(claims), Upserts(resource), sent, auth);
    DeletesExact(claims, sent, auth, key);
    UpsertsMiss(resource, Run(Deletes(claims), sent, auth), auth, key);
  }

  lemma ResourceStated(claims: seq<KeyValue>, resource: seq<KeyValue>, auth: Mapping, sent: Attributes, i: nat)
    requires WellFormed(resource) && i < |resource|
    ensures Lookup(Run(Deletes(claims) + Upserts(resource), sent, auth), resource[i].key) ==
            Some(TextValue(resource[i].value))
  {
    forall j | i < j < |resource| ensures resource[j].key != resource[i].key {
      assert KeyOf(resource[i]) != KeyOf(resource[j]);
    }
    RunAppend(Deletes(claims), Upserts(resource), sent, auth);
    UpsertsHit(resource, Run(Deletes(claims), sent, auth), auth, i);
  }

  /** A validated mapping leaves nothing to the iteration order. */
  lemma IdentityIsDetermined(c: Claims, claims: seq<KeyValue>, resource: seq<KeyValue>, fixed: Mapping)
    requires WellFormed(claims) && ValidMapping(claims, resource)
    ensures OrderIndependent(c, MapOf(claims), fixed)
  {
    var m := MapOf(claims);
    forall a, s, t | a !in fixed && Gives(c, m, a, s) && Gives(c, m, a, t) ensures s == t {
      var claim :| claim in m && m[claim] == a && Carries(c, claim, s);
      var kv :| kv in claims && kv.key == claim && kv.value == a;
      var i :| 0 <= i < |claims| && claims[i] == kv;
      TargetFedByItsClaim(c, claims, resource, i, s);
      TargetFedByItsClaim(c, claims, resource, i, t);
    }
    OrderIndependentIff(c, m, fixed);
  }

  /**
   The shipped pipeline, from the two variables' texts on: the extension gets the claims and no
   static attributes, the deployment's attributes are the resource processor's alone.
   */
  lemma ShippedPipeline(claimsText: Bytes, resourceText: Bytes, c: Claims, order: seq<Bytes>, span: Attributes,
                        resource: Attributes)
    requires Parsed(claimsText).Ok? && Parsed(resourceText).Ok?
    requires ValidMapping(Parsed(claimsText).value, Parsed(resourceText).value)
    ensures WellFormed(Parsed(claimsText).value)
    ensures ValidExtension(MapOf(Parsed(claimsText).value), map[])
    ensures var claims, deployment := Parsed(claimsText).value, Parsed(resourceText).value;
            Enumerates(order, MapOf(claims)) ==>
              var auth := AuthData(c, MapOf(claims), map[], order);
              && CarriesIdentity(c, claims, span, Run(StampActions(claims), span, auth))
              && CarriesDeployment(claims, deployment, resource,
                                   Run(Deletes(claims) + Upserts(deployment), resource, auth))
  {
    ParsedIsWellFormed(claimsText);
    ParsedIsWellFormed(resourceText);
    var claims, deployment := Parsed(claimsText).value, Parsed(resourceText).value;
    if Enumerates(order, MapOf(claims)) {
      SpanCarriesTokenIdentity(c, claims, deployment, map[], order, span);
      ResourceCarriesNoIdentity(claims, deployment, resource, AuthData(c, MapOf(claims), map[], order));
    }
  }
}
