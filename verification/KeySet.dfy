/**
 The provider's JWKS as the authenticator caches it: what a fetched document
 contributes, which key a token's header selects, and the cache object itself.

 A signature check is foreign code, so a key carries its material only as an
 identity that tells two keys apart.
 */
module KeySet {
  import opened Wrappers

  datatype Key = Key(kid: string, alg: string, use: string, isPublic: bool, material: int)

  /** One entry of a JWKS document; None is an entry that does not unmarshal. */
  type Entry = Option<Key>

  /** What a JWKS request comes back with. `document` is None when the body is not a JWKS. */
  datatype Response =
    | NoAnswer
    | Answer(status: int, size: nat, document: Option<seq<Entry>>)

  const STATUS_OK := 200
  const MAX_JWKS_BYTES := 0x10_0000

  /** The least time between two fetches unknown kids may cause, in nanoseconds. */
  const MIN_REFRESH_INTERVAL := 10_000_000_000

  predicate Usable(key: Key) {
    key.isPublic && key.use != "enc"
  }

  /** The entries a document contributes, in document order. */
  function SigningKeys(entries: seq<Entry>): seq<Key> {
    if entries == [] then []
    else
      var last := entries[|entries| - 1];
      SigningKeys(entries[..|entries| - 1])
      + if last.Some? && Usable(last.value) then [last.value] else []
  }

  /** Nothing usable is lost, nothing unusable is kept. */
  lemma {:induction false} SigningKeysExact(entries: seq<Entry>, key: Key)
    ensures key in SigningKeys(entries) <==> Some(key) in entries && key.isPublic && key.use != "enc"
  {
    if entries != [] {
      SigningKeysExact(entries[..|entries| - 1], key);
      assert entries == entries[..|entries| - 1] + [entries[|entries| - 1]];
    }
  }

  /** `parseJWKS`: a document without one public signing key is an error, not an empty set. */
  method ParseJWKS(entries: seq<Entry>) returns (r: Result<seq<Key>, string>)
    ensures r.Ok? <==> exists key :: Some(key) in entries && key.isPublic && key.use != "enc"
    ensures r.Ok? ==> r.value == SigningKeys(entries) && r.value != []
  {
    var keys := [];
    for i := 0 to |entries|
      invariant keys == SigningKeys(entries[..i])
    {
      assert entries[..i + 1][..i] == entries[..i];
      if entries[i].Some? && Usable(entries[i].value) {
        keys := keys + [entries[i].value];
      }
    }
    assert entries[..|entries|] == entries;
    forall key ensures key in keys <==> Some(key) in entries && Usable(key) {
      SigningKeysExact(entries, key);
    }
    if |keys| == 0 {
      return Err("JWKS has no public signing key");
    }
    assert keys[0] in keys;
    return Ok(keys);
  }

  /** The keys a fetch yields, or None when `fetch` returns an error. */
  function Fetched(response: Response): (keys: Option<seq<Key>>)
    ensures keys.Some? ==> keys.value != []
  {
    if response.NoAnswer? || response.status != STATUS_OK || response.size > MAX_JWKS_BYTES
       || response.document.None? || SigningKeys(response.document.value) == [] then None
    else Some(SigningKeys(response.document.value))
  }

  /** What a loaded key set is: not empty, and of public signing keys only. */
  ghost predicate Trustworthy(keys: seq<Key>) {
    keys != [] && forall key :: key in keys ==> Usable(key)
  }

  lemma FetchedTrustworthy(response: Response)
    requires Fetched(response).Some?
    ensures Trustworthy(Fetched(response).value)
  {
    forall key | key in Fetched(response).value ensures Usable(key) {
      SigningKeysExact(response.document.value, key);
    }
  }

  predicate Matches(key: Key, kid: string, alg: string) {
    key.kid == kid && (key.alg == "" || key.alg == alg)
  }

  /** The key a header selects; an empty kid selects none. */
  function FindKey(keys: seq<Key>, kid: string, alg: string): (found: Option<Key>)
    ensures found.Some? ==> && kid != "" && found.value in keys
                            && found.value.kid == kid && (found.value.alg == "" || found.value.alg == alg)
    ensures found.None? && kid != "" ==>
              forall key :: key in keys ==> key.kid != kid || (key.alg != "" && key.alg != alg)
  {
    if kid == "" || keys == [] then None
    else if Matches(keys[0], kid, alg) then Some(keys[0])
    else FindKey(keys[1..], kid, alg)
  }

  /** Of several matching keys the first in document order is selected. */
  lemma {:induction false} FindKeyIsFirst(keys: seq<Key>, kid: string, alg: string, i: nat)
    requires kid != "" && i < |keys| && keys[i].kid == kid && (keys[i].alg == "" || keys[i].alg == alg)
    requires forall j :: 0 <= j < i ==> keys[j].kid != kid || (keys[j].alg != "" && keys[j].alg != alg)
    ensures FindKey(keys, kid, alg) == Some(keys[i])
  {
    if i > 0 {
      assert !Matches(keys[0], kid, alg);
      FindKeyIsFirst(keys[1..], kid, alg, i - 1);
    }
  }

  /** The cached part of a key set. `generation` is the source's uint64, idealised. */
  datatype Cache = Cache(keys: seq<Key>, generation: nat, missFetched: int)

  /** A key set before its first load; `missFetched` is the zero time. */
  const EMPTY_CACHE := Cache([], 0, 0)

  function Installed(cache: Cache, keys: seq<Key>): Cache {
    cache.(keys := keys, generation := cache.generation + 1)
  }

  function Refreshed(cache: Cache, response: Response): Cache {
    match Fetched(response)
    case None => cache
    case Some(keys) => Installed(cache, keys)
  }

  predicate Stale(cache: Cache, generation: nat, now: int) {
    cache.generation == generation && now - cache.missFetched >= MIN_REFRESH_INTERVAL
  }

  /** What `refreshFor` leaves the cache at when nothing else touches it meanwhile. */
  function AfterMiss(cache: Cache, at: nat, now: int, response: Response): Cache {
    if Stale(cache, at, now) then Refreshed(cache.(missFetched := now), response) else cache
  }

  /** The key it then answers with: none when its own fetch failed. */
  function KeyAfterMiss(cache: Cache, kid: string, alg: string, at: nat, now: int, response: Response): Option<Key> {
    if Stale(cache, at, now) && Fetched(response).None? then None
    else FindKey(AfterMiss(cache, at, now, response).keys, kid, alg)
  }

  datatype Verdict = Payload | UnknownKey | BadSignature

  /** The key a header selects, at once or after the miss. */
  function KeyFor(cache: Cache, kid: string, alg: string, now: int, response: Response): Option<Key> {
    if FindKey(cache.keys, kid, alg).Some? then FindKey(cache.keys, kid, alg)
    else KeyAfterMiss(cache, kid, alg, cache.generation, now, response)
  }

  /** What `VerifySignature` says when nothing else touches the cache meanwhile. */
  function SignatureVerdict(cache: Cache, signatures: nat, kid: string, alg: string, now: int, response: Response,
                            verifies: Key -> bool): Verdict
  {
    if signatures != 1 then BadSignature
    else match KeyFor(cache, kid, alg, now, response)
         case None => UnknownKey
         case Some(key) => if verifies(key) then Payload else BadSignature
  }

  /** The key is cached, fit for the header, and verifies the signature. */
  ghost predicate Vouches(key: Key, keys: seq<Key>, kid: string, alg: string, verifies: Key -> bool) {
    key in keys && kid != "" && Matches(key, kid, alg) && verifies(key)
  }

  /**
   The cache object. Each method is one critical section, or for `RefreshFor` and
   `VerifySignature` the sections one call runs through when nothing interleaves;
   the interleavings are the subject of CacheProtocol, whose steps apply the same
   functions to the same cache value.
   */
  class Store {
    var keys: seq<Key>
    var generation: nat
    var missFetched: int

    constructor ()
      ensures View() == EMPTY_CACHE
    {
      keys, generation, missFetched := [], 0, 0;
    }

    function View(): Cache
      reads this
    {
      Cache(keys, generation, missFetched)
    }

    method Lookup(kid: string, alg: string) returns (key: Option<Key>, at: nat)
      ensures key == FindKey(keys, kid, alg) && at == generation
    {
      at := generation;
      key := None;
      if kid == "" {
        return;
      }
      for i := 0 to |keys|
        invariant key.None?
        invariant forall j :: 0 <= j < i ==> !Matches(keys[j], kid, alg)
      {
        if Matches(keys[i], kid, alg) {
          FindKeyIsFirst(keys, kid, alg, i);
          return Some(keys[i]), at;
        }
      }
      assert FindKey(keys, kid, alg).None?;
    }

    /** A failed fetch keeps the cache. */
    method Refresh(response: Response) returns (ok: bool)
      modifies this
      ensures ok <==> Fetched(response).Some?
      ensures ok <==> && response.Answer? && response.status == 200 && response.size <= 1_048_576
                      && response.document.Some?
                      && exists key :: Some(key) in response.document.value && key.isPublic && key.use != "enc"
      ensures View() == Refreshed(old(View()), response)
      ensures ok || Trustworthy(old(keys)) ==> Trustworthy(keys)
    {
      ok := false;
      if response.NoAnswer? || response.status != STATUS_OK || response.size > MAX_JWKS_BYTES
         || response.document.None? {
        return;
      }
      var parsed := ParseJWKS(response.document.value);
      if parsed.Err? {
        assert SigningKeys(response.document.value) == [] by {
          if SigningKeys(response.document.value) != [] {
            SigningKeysExact(response.document.value, SigningKeys(response.document.value)[0]);
            assert false;
          }
        }
        return;
      }
      keys, generation := parsed.value, generation + 1;
      ok := true;
      FetchedTrustworthy(response);
    }

    /** `now` is the clock reading, `response` what a fetch would come back with. */
    method RefreshFor(kid: string, alg: string, at: nat, now: int, response: Response)
      returns (key: Option<Key>)
      modifies this
      ensures View() == AfterMiss(old(View()), at, now, response)
      ensures key == KeyAfterMiss(old(View()), kid, alg, at, now, response)
      ensures Trustworthy(old(keys)) ==> Trustworthy(keys)
    {
      if Stale(View(), at, now) {
        missFetched := now;
        var ok := Refresh(response);
        if !ok {
          return None;
        }
      }
      var again: nat;
      key, again := Lookup(kid, alg);
    }

    /** `verifies` is the signature check with the selected key. */
    method VerifySignature(signatures: nat, kid: string, alg: string, now: int, response: Response,
                           verifies: Key -> bool)
      returns (verdict: Verdict)
      modifies this
      ensures verdict == SignatureVerdict(old(View()), signatures, kid, alg, now, response, verifies)
      ensures verdict.Payload? ==> exists key :: Vouches(key, keys, kid, alg, verifies)
      ensures Trustworthy(old(keys)) ==> Trustworthy(keys)
      ensures signatures != 1 ==> verdict == BadSignature
      ensures verdict.UnknownKey? <==>
              signatures == 1 && FindKey(old(keys), kid, alg).None? && FindKey(keys, kid, alg).None?
      ensures signatures == 1 && FindKey(keys, kid, alg).Some? ==>
                verdict == if verifies(FindKey(keys, kid, alg).value) then Payload else BadSignature
      ensures View() == if signatures != 1 || FindKey(old(keys), kid, alg).Some? then old(View())
                        else AfterMiss(old(View()), old(generation), now, response)
    {
      if signatures != 1 {
        return BadSignature;
      }
      var key, at := Lookup(kid, alg);
      if key.None? {
        key := RefreshFor(kid, alg, at, now, response);
      }
      if key.None? {
        return UnknownKey;
      }
      assert verifies(key.value) ==> Vouches(key.value, keys, kid, alg, verifies);
      return if verifies(key.value) then Payload else BadSignature;
    }
  }
}
