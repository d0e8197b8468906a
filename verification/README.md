# otlp-collector-oidc, modelled in Dafny

A model of the parts of the collector that decide things, and proofs about them:

- **The JWKS cache** (`KeySet`, `CacheProtocol`, `CacheTheorems`). The cache object with its
  critical sections as methods, and the same cache under any interleaving of calls, the
  provider's lifecycle, a changing JWKS and time.
- **The OTLP upstream** (`Upstream`, `Resolve`, `ResolveTheorems`, `Environment`, `Headers`,
  `Exporters`). The stateful resolver refines a pure specification, which is pinned to the
  environment's own names and texts; exporters partition the signals.
- **Tokens** (`Fields`, `Token`, `Precedence`, `Profile`, `Authenticator`). Acceptance as a set of rules
  and as an interval of instants, the order in which broken rules are named, the documented rules
  beside the code's, and the whole request composed with the key cache and the record of refusals.
- **Texts** (`Text`, `LastWins`, `KeyValueList`, `Quoting`). Parsers, printers and nested quoting as
  codecs.
- **Pipeline rewriting** (`Identity`, `Clamps`). Identity stamping end to end, and the timestamp
  clamps as a small program with its own semantics.
- **Accounting** (`Rejections`, `Refusals`). Warnings and refusal counts over whole runs.

`dafny verify dfyconfig.toml` checks everything.

## Main results

- `RevokedInTime` and `BoundAttained`: a removed key leaves the cache within the refresh interval
  plus two fetch timeouts, and no sooner in the worst case. The promise in
  `docs/token-profile.md` (lines 45-47) and in the variable's description, "within
  `OIDC_JWKS_REFRESH`", therefore fails for every positive timeout:
  `DocumentedBoundNeedsInstantFetches` is the exact condition, a zero timeout being an
  instant fetch and not the absence of a limit it is to Go's HTTP client.
- `UsedKeyWasCached`, `UnknownKeyMeansAbsent`, `MissFetchesAreSpaced`, `OneSuccessPerGeneration`:
  what every interleaving of lookups, misses and scheduled refreshes keeps.
- `ResolveAll` refines `Resolved`; `SucceedsIff`, `FailureIsExact`, `ResolvedIsSound`,
  `ResolutionIsLocal` and `OrderDoesNotMatter` are what that specification promises.
- `SignalResolvesIff`, `ConfiguredByTheEnvironment` and `ReportedExactly`: by the variables' names and
  texts alone, which environments resolve, what every field of a configuration is, and exactly which
  faults are reported.
- `OrderKeptIff`: the span clamps keep start before end exactly when the first statement's two
  clock readings differ by at most the skew plus one nanosecond.
- `OrderIndependentIff`: the identity `newAuthData` builds depends on Go's map order exactly when
  two claims of the token give one attribute different texts. `MappingIsOrderIndependentIff`: a
  mapping the extension accepts is safe for every token exactly when no two claims share a target,
  which the extension does not check (`SharedTargetIsAccepted`) and the rendered mapping's validation
  does, hence `IdentityIsDetermined` and `ShippedPipeline`.
- `RefusalNamesFirstBroken`: a refusal is for the first broken rule of the code's order.
- `AnswersAsPromisedIff` and `AcceptsAsPromisedIff`: the rules of `docs/token-profile.md` (lines 54-71),
  stated on their own, against the code's. The code gives another answer for exactly the tokens that
  - name another algorithm and are no compact JWS beyond their header (`DivergingHeader`);
  - are malformed by rule 6, the payload with something after its object or a date that is no number,
    but are accepted or break a rule the code applies first (`DivergingToken`);
  - meet, before any broken rule, one that is read differently: an `aud` or `scp` array that is not all
    strings, a scope set off by white space other than a blank (`TabbedScope`) or with white space in
    it (`UnfindableScope`), a date cut to the nanosecond (`FractionalExpiry`) or clamped.

  The last kind, and a payload with something after its object, also change which tokens are accepted.
- `RefusedAfterFetchUnless` and `RefusedWithoutFetch`: `docs/token-profile.md` (lines 39-44) promises a
  fetch, at most one per ten seconds, before a token is refused for its `kid`. A call is refused
  without one when a refresh changes the cache between its lookup and its decision, even to a document
  older than the key, and in no other case but the ten seconds.
- `Authenticate` and `AcceptedInAnyRun`: an accepted request was vouched for by a cached public signing
  key fit for its header, alone or with anything between its steps.
- `Receive`: every request is refused and counted once, exported once, or handed to the gRPC server
  once. The one exception is an admitted request the server itself fails with status 401, which is
  taken for the authenticator's and counted by nobody.

## Conventions

- A Go string is a sequence of bytes, written as characters below 256 (`Text.Bytes`). `Quoting` uses
  Unicode strings for what `encoding/json` encodes.
- Times and durations are integer nanoseconds. Counters and generations are natural numbers.
- What the Go library decides is a parameter nothing is known about: `url.Parse`, `ParseInt`,
  `ParseDuration`, an error's text, a signature check, what a compact token parses to.
- The clock is a parameter of each call, and nothing is assumed of it unless a lemma says so.

## Model

| member | source | states |
|---|---|---|
| KeySet.SigningKeysExact | extension/oidcclientauth/keyset.go:163-175 | The kept keys are exactly the entries that parse, are public and are not marked for encryption |
| KeySet.ParseJWKS | extension/oidcclientauth/keyset.go:157-179 | Succeeds exactly when some entry is usable, with all usable entries in document order, never empty |
| KeySet.FindKey | extension/oidcclientauth/keyset.go:184-194 | A found key is cached under that non-empty kid and states no alg or the header's; none found means every cached key has another kid or another alg |
| KeySet.FindKeyIsFirst | extension/oidcclientauth/keyset.go:188-192 | Of several matching keys the first is selected |
| KeySet.Store.constructor | extension/oidcclientauth/keyset.go:51-53 | A new key set is empty, at generation 0 and the zero time |
| KeySet.Store.Lookup | extension/oidcclientauth/keyset.go:79-83 | The loop selects the specified key and reports the generation it looked in |
| KeySet.Store.Refresh | extension/oidcclientauth/keyset.go:112-152 | Succeeds exactly for a 200 answer of at most 1 MiB that is a JWKS with a usable key; failure changes nothing, success replaces the keys by trustworthy ones and raises the generation |
| KeySet.Store.RefreshFor | extension/oidcclientauth/keyset.go:88-108 | Fetches only at the missed generation and outside the interval; a failed own fetch answers none |
| KeySet.Store.VerifySignature | extension/oidcclientauth/keyset.go:58-75 | An unknown key is exactly one absent before and after; otherwise the verdict is that of the key the cache then holds; a payload means a cached, compatible key verified it |
| KeySet.FetchedTrustworthy | extension/oidcclientauth/keyset.go:171-178 | A fetched set is non-empty and only of public signing keys |
| CacheProtocol.ExclusiveKept | extension/oidcclientauth/keyset.go:45-48 | Every step keeps the `refreshing` mutex with one holder |
| CacheProtocol.LoadedKept | extension/oidcclientauth/discovery.go:33-60 | Every step keeps the cache loaded once handed over, and turns calls away before |
| CacheProtocol.KnownKept | extension/oidcclientauth/keyset.go:88-108 | Every step keeps what a waiting call knows: its key is missing while the generation is the one it missed in |
| CacheProtocol.InvHolds | extension/oidcclientauth/keyset.go:34-49 | The three invariants hold in every state of every run |
| CacheTheorems.GenerationsGrow | extension/oidcclientauth/keyset.go:112-122 | The cache is never taken back, its generation never falls, and an unchanged generation means unchanged keys |
| CacheTheorems.EqualGenerationsEqualCaches | extension/oidcclientauth/keyset.go:112-122 | Equal generations mean equal caches at any two instants of a run |
| CacheTheorems.UsedKeyWasCached | extension/oidcclientauth/keyset.go:58-75 | A key a call uses is public, not for encryption, and was in the cache when one of the call's own lookups took it, under that non-empty kid and with no alg or the header's |
| CacheTheorems.MissedAtFirst | extension/oidcclientauth/keyset.go:63-66 | A call past its first lookup missed at that lookup, in the generation it remembers |
| CacheTheorems.UnknownKeyMeansAbsent | extension/oidcclientauth/keyset.go:67-69 | An unknown key was absent at the call's first lookup, and then at its second, or the call's own fetch failed |
| CacheTheorems.RefusedAfterFetchUnless | docs/token-profile.md:39-44 | In every run a call is refused after a fetch of its own, or the cache changed between its first lookup and its decision, or its clock reading was within ten seconds of the last miss-driven fetch |
| CacheTheorems.RefusedWithoutFetch | docs/token-profile.md:39-44 | A run in which no call fetches, the interval is past and the key is published before the call begins, and the call is refused |
| CacheTheorems.FetchingCall | extension/oidcclientauth/keyset.go:95-107 | The fetch steps of a call run alone install and answer what the cache functions say |
| CacheTheorems.MissedCall | extension/oidcclientauth/keyset.go:88-108 | The steps of a missed call run alone do what `refreshFor` does |
| CacheTheorems.UninterruptedCall | extension/oidcclientauth/keyset.go:58-108 | Without interleaving the protocol's steps do exactly what the cache object's methods do |
| CacheTheorems.FetchDecidedOnMiss | extension/oidcclientauth/keyset.go:91-94 | Each decision to fetch is taken while the current cache lacks the wanted key |
| CacheTheorems.OneMissFetchAtATime | extension/oidcclientauth/keyset.go:89-98 | Two miss-driven fetches in flight at once are the same one |
| CacheTheorems.MissFetchesAreSpaced | extension/oidcclientauth/keyset.go:91-98 | Readings at which miss-driven fetches begin are pairwise at least ten seconds apart, whatever the clock does |
| CacheTheorems.LaterMissesAreNewer | extension/oidcclientauth/keyset.go:88-108 | After a successful miss-driven fetch every fetch decided on missed in a later generation |
| CacheTheorems.OneSuccessPerGeneration | extension/oidcclientauth/keyset.go:88-108 | No generation has two successful miss-driven fetches |
| CacheTheorems.ReadyForGood | extension/oidcclientauth/extension.go:80-84 | Once ready, the cache stays non-empty and trustworthy and no call is answered not ready |
| CacheTheorems.FailedFetchKeepsCache | extension/oidcclientauth/keyset.go:112-116 | A failed fetch, scheduled or not, leaves the cache as it was |
| CacheTheorems.OnTimeKept | extension/oidcclientauth/discovery.go:65-72 | Every step keeps each fetch within its timeout and each sleep within the interval |
| CacheTheorems.DrainingKept | extension/oidcclientauth/discovery.go:65-72 | Every step keeps removed keys confined to fetches begun before the removal and one scheduler cycle |
| CacheTheorems.RevokedInTime | extension/oidcclientauth/discovery.go:65-72 | A removed key is absent later than the removal plus the interval plus two timeouts, whatever races |
| CacheTheorems.BoundAttained | extension/oidcclientauth/discovery.go:65-72 | At exactly that instant a run exists in which the key is still cached |
| CacheTheorems.DocumentedBoundNeedsInstantFetches | docs/token-profile.md:45-47 | The documented bound of one interval holds for exactly the timings with a zero timeout |
| Text.SplitJoin | internal/render/values.go:134 | Splitting a joined list of separator-free parts gives the parts |
| Text.JoinSplit | internal/render/values.go:134 | Joining what a text was split into gives the text back |
| Text.CutConcat | internal/render/values.go:139 | Cutting at the first separator splits where the separator was put |
| Text.TrimSpaceTrims | internal/render/values.go:140-141 | Trimming leaves no Unicode white space at either end and is idempotent |
| Text.TrimSpaceDropsSpace | internal/render/values.go:140-141 | What trimming takes off either end is white space and nothing else |
| Text.TrimPadded | internal/render/values.go:140-141 | Trimming takes off white space put around a trimmed text, and only that |
| Text.TrimmedAwayIff | internal/render/values.go:136 | A text trims to nothing exactly when it is white space |
| Text.SpaceIsUnicode | internal/render/values.go:136 | Bytes taken for white space are the UTF-8 form of a character Unicode calls so |
| Text.UnicodeIsSpace | internal/render/values.go:136 | Every character Unicode calls white space is taken for it |
| Text.UnescapeEscape | internal/upstream/config.go:118 | Percent-decoding returns what was percent-encoded, for every byte string and both forms |
| Text.EscapeAlphabet | internal/upstream/config.go:118 | An encoding is visible ASCII of the kept characters and escapes only |
| Text.KeptIs | internal/upstream/config.go:118 | The characters each form leaves as they are, listed |
| Text.HexDigits | internal/upstream/config.go:137 | A hexadecimal digit in either case stands for its place in the row of digits |
| Text.UnescapeFailsIff | internal/upstream/config.go:136-137 | Decoding fails exactly when a percent sign is not followed by two hexadecimal digits |
| Text.LowerEqualIff | internal/upstream/config.go:148 | Lower-casing identifies exactly the texts that differ in the case of their letters |
| LastWins.Collect | internal/render/values.go:131-156 | The loop over items and index map gives the merged list, or the first fault and its position |
| LastWins.GatherErr | internal/upstream/config.go:130-147 | The fault reported is the first faulty item's |
| LastWins.MergeExact | internal/upstream/config.go:148-153 | One entry per key, and it is the last one stated |
| LastWins.MergeOrder | internal/render/values.go:148-153 | Entries stand in the order their keys were first stated |
| Headers.SortIsStable | internal/upstream/config.go:115 | The sort orders by name, keeps equal names in order and loses nothing |
| Headers.StableSortUnique | internal/upstream/config.go:115 | Sortedness and stability determine the result |
| Headers.AtMostIff | internal/upstream/config.go:115 | The order of names: a prefix first, otherwise the smaller byte at the first difference |
| Headers.PairsEncode | internal/upstream/config.go:81-94 | Decoding the joined form gives back any list of pairs |
| Headers.NewHeaders | internal/upstream/config.go:114-121 | The form encodes the stable sort, and its pairs are the stable sort |
| Headers.SameFormIffSamePairs | internal/upstream/config.go:76-78 | Two forms are equal exactly when, name by name, the lists hold the same pairs in the same order |
| Headers.ParseItem | internal/upstream/config.go:132-147 | A parsed pair has a non-empty token name and a sendable value |
| Headers.ItemSkippedIff | internal/upstream/config.go:132-139 | An item is skipped exactly when it is white space; any other without an equals sign is not key=value |
| Headers.ItemAnswers | internal/upstream/config.go:135-147 | Which of the four faults an item has, or the pair it parses to, by its two sides |
| Headers.ParseStated | internal/upstream/config.go:135-147 | A header percent-encoded, with any white space around its two sides, parses to that header |
| Headers.ParseStatedList | internal/upstream/config.go:126-156 | A list of such items of different names parses to those headers, sorted |
| Headers.SameNameIff | internal/upstream/config.go:148-152 | Names are one exactly when they differ at most in the case of their letters |
| Headers.ParseHeaders | internal/upstream/config.go:126-156 | Returns the first faulty pair, or the form whose pairs are the merged list sorted |
| Headers.SameHeadersIffSameWinners | internal/upstream/config.go:123-125 | Two texts parse to one value exactly when they state the same headers, last statement per name, case aside |
| Headers.ReorderingKeepsHeaders | internal/upstream/config.go:126-156 | Reordering pairs of case-insensitively distinct names keeps the value |
| Headers.ParsedHeadersAreSendable | internal/upstream/config.go:158-185 | Every parsed name is a non-empty token, every value sendable, no name repeated |
| Headers.Redacted | internal/upstream/config.go:106-112 | Every pair stays, its value replaced by the same word |
| Headers.RedactionShowsOnlyNames | internal/upstream/config.go:105-112 | Redaction keeps the names in order, and two redacted forms are equal exactly when the sorted names are |
| Upstream.ParseEndpoint | internal/upstream/resolve.go:188-211 | Plaintext is the http scheme; a gRPC endpoint is the whole of what was written, host and port; HTTP keeps the text, and a base one awaits its signal path |
| Upstream.Capped | internal/upstream/resolve.go:214-219 | The result is the default or a positive limit, and at most both |
| Upstream.WellFormedIff | internal/upstream/resolve.go:98-150 | No variable is at fault exactly when all are present and parse |
| Resolve.ReportAllTexts | internal/upstream/resolve.go:57-63 | Reporting repeats no text and loses none |
| Resolve.Resolver.constructor | internal/upstream/resolve.go:18 | A new resolver has nothing reported |
| Resolve.Resolver.Fail | internal/upstream/resolve.go:57-63 | Marks the signal faulted and reports a text once |
| Resolve.Resolver.CheckFields | internal/upstream/resolve.go:91-150 | Reports exactly the signal's malformed and missing variables, in reading order |
| Resolve.Resolver.ApplyRules | internal/upstream/resolve.go:151-182 | Reports exactly the broken cross-variable rules and builds the specified configuration |
| Resolve.Resolver.ResolveSignal | internal/upstream/resolve.go:90-183 | The stateful resolution of a signal is its outcome, with every fault reported once |
| Resolve.CheckUnusedFiles | internal/upstream/resolve.go:31-38 | Reports exactly the base TLS files no upstream uses |
| Resolve.CheckAcrossSignals | internal/upstream/resolve.go:25-39 | Reports exactly the base variables that apply to nothing |
| Resolve.ResolveEach | internal/upstream/resolve.go:20-24 | The loop collects exactly the faultless signals' configurations and all faults |
| Resolve.ResolveAll | internal/upstream/resolve.go:17-44 | The resolver's result is the pure specification's, for every environment and list of signals; `Environment` says what that is |
| ResolveTheorems.SucceedsIff | internal/upstream/resolve.go:17-44 | Success means no signal fault and no broken global rule; the map has exactly the requested signals, each with its own outcome |
| ResolveTheorems.FailureIsExact | internal/upstream/resolve.go:46-63 | The errors are duplicate-free and, as a set, those the signals' faults and global rules call for |
| ResolveTheorems.ResolvedIsSound | internal/upstream/resolve.go:144-182 | Plaintext excludes every TLS setting, client certificate and key go together, backoffs fit the limit; an HTTP endpoint is as written and awaits a signal path exactly when the signal's own variable is unset |
| ResolveTheorems.BaseVariablesApply | internal/upstream/resolve.go:25-39 | A base INSECURE=true finds a gRPC upstream, a base TLS file a TLS upstream |
| ResolveTheorems.ResolutionIsLocal | internal/upstream/resolve.go:73-83 | Environments that agree, empty as unset, on the base names and the requested signals' names resolve alike |
| ResolveTheorems.Names | internal/upstream/variables.go:80-91 | Lists every name a resolution may read and no other |
| ResolveTheorems.OrderDoesNotMatter | internal/upstream/resolve.go:12-24 | Permuting distinct signals changes neither success, the map nor the set of errors |
| Environment.SignalResolvesIff | internal/upstream/resolve.go:90-183 | By names and texts, a signal resolves exactly when its variables parse and agree, and every field is that of its own variable |
| Environment.ConfiguredByTheEnvironment | internal/upstream/resolve.go:90-183 | Every field of every configuration of a successful resolution, by the variable it comes from: own, then base, then default |
| Environment.SignalFaultIff | internal/upstream/resolve.go:98-182 | A signal has a fault exactly when its variables call for it: the variable named, its text shown unless secret, and why |
| Environment.BaseFaultIff | internal/upstream/resolve.go:25-39 | A base variable is reported unused exactly when every signal resolves and none can use it |
| Environment.ReportedExactly | internal/upstream/resolve.go:12-16 | A failed resolution reports exactly what the environment calls for, each text once |
| Environment.SucceedsWhenNothingIsReported | internal/upstream/resolve.go:40-43 | A resolution succeeds exactly when the environment calls for no fault |
| Environment.BoolRead | internal/upstream/resolve.go:222-230 | A boolean is `true` or `false` in any case, and nothing else |
| Environment.ReadPerSignal | internal/upstream/variables.go:100-114 | The signal's own variable, by its whole name, before the base one before the default |
| Exporters.GroupSignals | internal/render/upstream.go:97-109 | The slice and map hold the groups of the specification |
| Exporters.GroupsPartition | internal/render/upstream.go:94-109 | Every resolved signal is in exactly one group, that of its configuration |
| Exporters.TogetherIffEqual | internal/render/upstream.go:94-109 | Two signals share a group exactly when their configurations are equal |
| Exporters.IdsDiffer | internal/render/upstream.go:111-120 | Component ids are pairwise distinct |
| Exporters.IdNamesSignals | internal/render/upstream.go:111-120 | The id is the type alone for an exporter of every signal, and names the signals otherwise |
| Exporters.OneForAll | internal/render/upstream.go:94-127 | One configuration for all signals is one exporter, plain otlp_grpc or otlp_http, for traces, logs and metrics |
| Exporters.All | internal/render/upstream.go:97-127 | The exporters are an exact partition of the resolved signals with distinct ids and configurations |
| Exporters.ExporterFor | internal/render/upstream.go:75-86 | Answers exactly for resolved signals, with the id of the exporter holding that signal's configuration |
| Exporters.RenderedDestination | internal/render/upstream.go:139-150 | An exporter sends each signal it serves where its configuration says, and has no per-signal URL for another |
| Exporters.SentAsConfigured | internal/render/upstream.go:111-125 | Every resolved signal goes to its own configuration's URL with its own headers |
| Exporters.SentAsTheEnvironmentSays | internal/upstream/resolve.go:185-211 | From the environment on, an HTTP signal goes to its own endpoint as written, or to the base one with its path |
| Exporters.ParseSignal | internal/upstream/enums.go:47-54 | traces, logs and metrics name the three signals, and nothing else names one |
| Fields.FieldsAreTokens | extension/oidcclientauth/authorize.go:31-36 | The fields of a text are exactly the tokens that stand in it between white space |
| Fields.JoinStands | docs/token-profile.md:70 | Each item of a space-delimited string stands in it between blanks |
| Fields.BlankIsToken | docs/token-profile.md:70 | A text without white space that stands between blanks is a white-space delimited token |
| Token.InstantExact | extension/oidcclientauth/verify.go:155-157 | Seconds and nanoseconds together are the clamped date truncated to a nanosecond |
| Token.InstantInNumbers | extension/oidcclientauth/verify.go:152-157 | Within 10^15 seconds the instant is the date in nanoseconds with its fraction cut off; beyond, 10^24 nanoseconds either way |
| Token.InstantSound | extension/oidcclientauth/verify.go:152-157 | The conversion is monotone, within a nanosecond of the clamped date, and in range |
| Token.Contains | extension/oidcclientauth/verify.go:131-136 | The search finds the text exactly when the array holds it |
| Token.RegisteredIff | extension/oidcclientauth/verify.go:66-94 | No fault exactly when every registered-claim rule holds |
| Token.ScopeIff | extension/oidcclientauth/authorize.go:30-45 | The scope is granted exactly when scope or scp holds it as a delimited token or an element |
| Token.AuthorizeIff | extension/oidcclientauth/authorize.go:15-25 | Authorized exactly when the scope is granted and every required claim is non-empty |
| Token.FirstMissingIff | extension/oidcclientauth/authorize.go:19-23 | The claim named missing is required and empty; none named means none is |
| Token.AcceptedIff | extension/oidcclientauth/verify.go:36-63 | A token is accepted exactly when every rule holds, with its own claims |
| Precedence.DecidesInOrder | extension/oidcclientauth/verify.go:34-94 | The decision is the answer of the first rule broken, in the order the code applies them |
| Precedence.RegisteredInOrder | extension/oidcclientauth/verify.go:65-94 | The registered-claim fault is the first broken rule's, each date's type just before its value |
| Precedence.AuthorizeInOrder | extension/oidcclientauth/authorize.go:15-25 | The authorization answer is the scope's, then the first empty required claim's |
| Precedence.RefusalNamesFirstBroken | extension/oidcclientauth/verify.go:65 | The rule a refusal names is broken and every rule the code applies before it holds |
| Profile.AnswersAsPromisedIff | docs/token-profile.md:54-71 | The code gives the answer the profile promises, its rules read on their own, to exactly the tokens that do not diverge |
| Profile.AcceptsAsPromisedIff | docs/token-profile.md:54-71 | A token one of the two accepts the other accepts exactly when no rule is read differently, and for the code also nothing follows the payload |
| Profile.DiffersIff | docs/token-profile.md:63-71 | The code and the profile disagree on a rule exactly for mixed arrays, scopes not set off by blanks or not plain, and dates slipped by truncation or clamping |
| Profile.ScopeSlipsIff | docs/token-profile.md:70 | The scope rule is read differently exactly when a plain scope is granted only beside other white space or in a mixed array, or one with white space is missed in a text or found in a mixed array alone |
| Profile.GapExact | docs/token-profile.md:67-69 | A date as the code keeps it and as written fall on different sides of an instant exactly on the nanosecond whose fraction was cut off, or beyond the clamp |
| Profile.TabbedScope | docs/token-profile.md:70 | A token whose scope is set off by a tab: accepted by the code, refused by the profile |
| Profile.UnfindableScope | extension/oidcclientauth/config.go:107-109 | A scope with a no-break space, which the configuration allows: granted by the profile, never found by the code |
| Profile.FractionalExpiry | docs/token-profile.md:67 | At the nanosecond a fractional expiry falls in, the token is expired by the code and not by the profile |
| Profile.DivergingToken | docs/token-profile.md:63-66 | A token without exp and with a text for nbf is malformed by the profile, missing exp by the code |
| Profile.DivergingHeader | docs/token-profile.md:59-60 | A token of another algorithm with a broken body is malformed by the profile, of an unsupported alg by the code |
| Token.AcceptedInterval | extension/oidcclientauth/verify.go:73-93 | The accepted instants are one interval, from the later of nbf and iat less the skew to exp plus it |
| Token.AcceptedIntervalInNumbers | extension/oidcclientauth/verify.go:73-93 | The interval of acceptance by the claims' own numbers |
| Token.MoreSkewAcceptsMore | extension/oidcclientauth/verify.go:80-90 | Enlarging the skew keeps every accepted token accepted |
| Authenticator.Authenticator.constructor | extension/oidcclientauth/factory.go:29-62 | A new authenticator has no key set |
| Authenticator.Authenticator.Ready | extension/oidcclientauth/discovery.go:33-41 | The handover makes the loaded, trustworthy key set the one requests are checked with |
| Authenticator.Authenticator.Verify | extension/oidcclientauth/verify.go:36-63 | Verification with the key set is the decision on the cache's verdict; the key set is not touched for a token refused by its header; success means a cached key vouched |
| Authenticator.Authenticator.Authenticate | extension/oidcclientauth/extension.go:75-95 | Refused exactly for no token, no key set or a broken rule, and then for the first; one count per refusal under its reason; an accepted request was vouched for by a cached, compatible, usable key and carries its token's identity |
| Authenticator.Authenticator.Refuse | extension/oidcclientauth/extension.go:97-100 | Raises the refusal's own reason by one, and no other |
| Authenticator.TextsTellApart | extension/oidcclientauth/reason.go:110-127 | A refusal's text tells it from every other |
| Authenticator.AcceptedInAnyRun | extension/oidcclientauth/extension.go:85-94 | Whatever comes between a call's steps, an accepted token keeps every rule and was vouched for by a usable key in the cache at one of the call's own lookups |
| Authenticator.UnknownInAnyRun | extension/oidcclientauth/verify.go:50-51 | Whatever comes between a call's steps, a token refused for its kid had no key at the first lookup, and none at the second or its fetch failed |
| KeyValueList.UnmarshalText | internal/render/values.go:130-157 | The loop gives the specified list or first fault |
| KeyValueList.ItemSkippedIff | internal/render/values.go:136-138 | An item is skipped exactly when it is white space; any other without an equals sign is refused |
| KeyValueList.ItemAnswers | internal/render/values.go:139-147 | Which of the two faults an item has, or its trimmed key and decoded value |
| KeyValueList.ParseStated | internal/render/values.go:139-147 | A pair with any white space around its two sides parses to that pair |
| KeyValueList.Print | internal/render/values.go:160-166 | The text is the escaped pairs joined |
| KeyValueList.ParsedIsWellFormed | internal/render/values.go:128-157 | Parsed keys are distinct, non-empty, trimmed and free of the separators |
| KeyValueList.ParsedIsLastWinsInFirstSeenOrder | internal/render/values.go:123-126 | Each key has its last value, keys in first-seen order |
| KeyValueList.PrintThenParse | internal/render/values.go:159-166 | Printing then parsing is the identity on every list the parser can produce |
| Identity.Validate | internal/render/env.go:151-177 | Every error names a real fault; for named claims, no error exactly when the mapping is valid |
| Identity.NewAuthData | extension/oidcclientauth/authdata.go:22-31 | The loop's result for the order in which the map is iterated |
| Identity.EveryOrderIsPossible | extension/oidcclientauth/authdata.go:19-31 | In every order static attributes win and every other comes from a mapped non-empty string claim, none missing |
| Identity.SomeOrderGives | extension/oidcclientauth/authdata.go:19-31 | Every such identity is the result of some order |
| Identity.OrderIndependentIff | extension/oidcclientauth/authdata.go:19-31 | All orders give one result exactly when no two claims give one attribute different texts |
| Identity.ValidateExtension | extension/oidcclientauth/config.go:116-132 | No error exactly when no name is empty and no target is static; a collision is reported for exactly the static targets |
| Identity.MappingIsOrderIndependentIff | extension/oidcclientauth/config.go:116-132 | A mapping the extension accepts leaves no token to the iteration order exactly when no two claims share a target |
| Identity.SharedTargetIsAccepted | extension/oidcclientauth/config.go:116-132 | A mapping the extension accepts, and a token whose identity depends on the order |
| Identity.IdentityActions | internal/render/identity.go:21-30 | A delete and an upsert per claim, in order |
| Identity.ResourceActions | internal/render/identity.go:42-51 | Deletes of all targets, then upserts of the deployment's attributes |
| Identity.StampExact | internal/render/identity.go:17-30 | Under every key the stamped span holds the context's value or nothing if a target, the client's otherwise |
| Identity.SpanCarriesTokenIdentity | internal/render/identity.go:17-30 | For every iteration order and every static map clear of the targets, each target is the token's claim when a non-empty string and absent otherwise; everything else is the client's |
| Identity.ResourceCarriesNoIdentity | internal/render/identity.go:39-51 | Whatever is in the context: no target on the resource, the deployment's attributes as configured, the rest and the service's own keys as sent |
| Identity.IdentityIsDetermined | internal/render/env.go:149-177 | A validated mapping leaves nothing to the iteration order, for every token and static map |
| Identity.ShippedPipeline | internal/render/collector.yaml.tmpl:163-175 | From the two variables' texts on, with no static attributes in the extension: the extension accepts the mapping, the span carries the token's identity and the resource the deployment's attributes |
| Clamps.ClampedIsBounded | internal/render/bounds.go:75-87 | Both times end within the skew of the last reading |
| Clamps.WithinSkewUnchanged | internal/render/bounds.go:75-87 | Times within the skew are untouched |
| Clamps.OrderKeptIff | internal/render/bounds.go:75-87 | No span is turned round exactly when the first two readings differ by at most the skew and a nanosecond |
| Clamps.TurnedRound | internal/render/bounds.go:82-83 | A span inside the gap between those readings is turned round |
| Rejections.Recorder.constructor | extension/oidcclientauth/telemetry.go:34-42 | A new recorder has no window and no count |
| Rejections.Recorder.Admit | extension/oidcclientauth/telemetry.go:58-74 | The windows and the warning are the specification's |
| Rejections.Recorder.Record | extension/oidcclientauth/telemetry.go:46-54 | Counts one refusal under its reason, and warns as admitted |
| Rejections.RecordAll | extension/oidcclientauth/telemetry.go:44-74 | A run of the recorder is the specification's run |
| Rejections.RefusalsAccountedFor | extension/oidcclientauth/telemetry.go:56-74 | For each reason, refusals are warnings plus reported suppressed plus pending |
| Rejections.WarnedExactly | extension/oidcclientauth/telemetry.go:56-74 | A refusal is warned about exactly when every warning for its reason so far was at least the interval before it, with the number of refusals since the last |
| Rejections.WarningsAreSpaced | extension/oidcclientauth/telemetry.go:67-73 | Readings of two warnings for one reason are at least the interval apart |
| Rejections.ReasonsAreIndependent | extension/oidcclientauth/telemetry.go:22-25 | A reason's warnings are those of its refusals alone |
| Refusals.Dispatch | receiver/otlpsingleport/server.go:83-94 | A request is exported exactly when path, method, media type and body are all right; a refusal names a real fault with its status |
| Refusals.IsGRPCIff | receiver/otlpsingleport/grpc.go:37-39 | gRPC is HTTP/2 with a content type that starts application/grpc |
| Refusals.Listener.Export | receiver/otlpsingleport/http.go:64-111 | One export, or one count under the first fault with its status |
| Refusals.Listener.ServeHTTP | receiver/otlpsingleport/server.go:83-94 | A request that is not gRPC raises one count or calls one export, never both |
| Refusals.Listener.HandleError | receiver/otlpsingleport/errors.go:94-113 | An authenticator refusal is not counted again, anything else is; not ready becomes 503 |
| Refusals.OnlyNotReadyReadsSo | extension/oidcclientauth/reason.go:110-127 | No refusal's text but the not-ready error's reads so |
| Refusals.Listener.Receive | receiver/otlpsingleport/errors.go:88-113 | Every request is accounted for exactly once, by the authenticator's own counter or the listener's; a refusal is 503 exactly when no key set is loaded and 401 otherwise; exported exactly when admitted and right |
| Refusals.SettledKept | receiver/otlpsingleport/grpc.go:53-92 | Every event keeps each RPC's count settled by its fate |
| Refusals.RpcCountedAtMostOnce | receiver/otlpsingleport/grpc.go:41-92 | However RPCs interleave, each is counted at most once and never if its handler ran |
| Refusals.FailureBeforeHandlerIsCounted | receiver/otlpsingleport/grpc.go:80-119 | An RPC that fails before any handler is counted when it ends: unknown path for Unimplemented, too large for ResourceExhausted, not at all for a cancelled or timed-out client, undecodable otherwise |
| Quoting.ScanBody | internal/render/render.go:62-69 | A JSON reader recovers the text and stops at its own closing quote |
| Quoting.HalveDouble | internal/render/render.go:59-69 | Halving doubled dollars gives the text, with no lone dollar |
| Quoting.DoubleJson | internal/render/render.go:69 | Doubling the encoding's dollars encodes the doubled text |
| Quoting.QuoteLossless | internal/render/render.go:62-70 | A quoted value reads back as itself whatever follows it |
| Quoting.QuoteList | internal/render/render.go:73-83 | The loop gives the bracketed, joined, quoted items |
| Quoting.QuoteListLossless | internal/render/render.go:73-83 | A rendered list reads back as the same items |
| Quoting.OttlString | internal/render/bounds.go:97-108 | The loop gives the quoted, escaped text |
| Quoting.OttlLosslessIff | internal/render/bounds.go:96-108 | The literal reads back and ends at its own quote exactly when the text has no line break |
| Quoting.NestedLossless | internal/render/bounds.go:58-60 | A literal inside a quoted statement survives both layers |
| Quoting.EncodeGRPCMessage | receiver/otlpsingleport/errors.go:164-175 | The loop gives the encoded message |
| Quoting.GRPCMessageLossless | receiver/otlpsingleport/errors.go:162-175 | The message decodes to its input and is printable ASCII |
| Quoting.GRPCMessagePlain | receiver/otlpsingleport/errors.go:164-175 | Printable text without a percent sign is sent as it is |

## Left out

- HTTP fetching, TLS, go-oidc discovery, go-jose parsing and signature checks: a fetch is a step that
  returns the document as published at some instant, or fails; a signature check is a parameter.
- The loops of `provider.discover` and `keepFresh` are steps of the protocol, not methods: what they
  do between two steps is sleep.
- The generation's uint64 wrap-around and the suppressed count's int64 range are idealised.
- Floating-point rounding of NumericDate values: JSON numbers are reals.
- Error texts: that a text is a function of the fault is all the de-duplication needs.
- Case folding beyond ASCII in `strings.ToLower` and `strings.EqualFold`: no other letter folds to
  those of `true` and `false`, and header names are ASCII by then.
- Clamps.OrderKeptIff: for a clock that never steps back; with one that does, the order depends on all six readings.
- Clamps.ClampedIsBounded: for the same clocks; the one-statement log clamp is its first step.
- Whether confighttp authenticates before it decompresses is its own affair: `Receive` takes the
  authenticator first, and the accounting does not depend on it.
- Authenticator.Authenticator.Authenticate: states one request run alone; `AcceptedInAnyRun` and
  `UnknownInAnyRun` are what holds with other calls and refreshes between its steps.
- Rule 2 of the token profile is taken as a compact JWS the library parses, rule 3 as the configured
  algorithms, and what a JSON decoder lets pass inside an object as that object.
- YAML's reading of a quoted scalar: the reader is JSON's, which YAML follows but for the control
  characters it does not allow unescaped.
- OTTL and the collector's processors beyond the statements and actions the source emits.
- `bearerToken`, the rest of `Config.Validate` and the algorithm table: short, and the decision takes their result.
- `KeyValueList.Without`, `Has`, the `String` methods, the gRPC and HTTP status tables: settled by reading.
- Regular expressions in `ALLOWED_SERVICE_NAMES` and `ALLOWED_METRIC_NAMES`, and the metrics pipeline.
- Reflection-driven loading, the template, the generated reference, logging and process lifecycle.
- Redaction as a map that keeps the grouping of exporters: it does not, since configurations that
  differ only in header values become equal.
