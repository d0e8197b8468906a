/**
 What a resolution makes of an environment, by the variables' own names and texts: which
 environments resolve, the value of every field, and every fault that is reported. Nothing here
 mentions the variable table or how the resolver reads it.
 */
module Environment {
  import opened Wrappers
  import opened Text
  import opened Headers
  import opened Upstream
  import opened Resolve
  import ResolveTheorems

  // -------------------------------------------------------------- variables

  /** A variable as one signal sees it: its text, the name it came from, and whether that is the signal's own. */
  datatype Variable = Variable(text: Bytes, name: Bytes, own: bool)

  datatype Variables = Variables(
    endpoint: Variable, protocol: Variable, headers: Variable, timeout: Variable, compression: Variable,
    certificate: Variable, clientCertificate: Variable, clientKey: Variable, insecure: Variable,
    skipVerify: Variable, queueSize: Variable, retry: Variable)

  /** The name of a signal's own variable. */
  function OwnName(sig: Signal, suffix: Bytes): Bytes {
    match sig
    case Traces => "OTEL_EXPORTER_OTLP_" + "TRACES_" + suffix
    case Logs => "OTEL_EXPORTER_OTLP_" + "LOGS_" + suffix
    case Metrics => "OTEL_EXPORTER_OTLP_" + "METRICS_" + suffix
  }

  function BaseName(suffix: Bytes): Bytes {
    "OTEL_EXPORTER_OTLP_" + suffix
  }

  /** Set, and not to the empty text. */
  predicate Given(env: Env, name: Bytes) {
    env.lookup(name).Some? && env.lookup(name).value != []
  }

  function Global(env: Env, name: Bytes, default: Bytes): Variable {
    Variable(if Given(env, name) then env.lookup(name).value else default, name, false)
  }

  /** The signal's own variable before the base one before the default. */
  function PerSignal(env: Env, sig: Signal, suffix: Bytes, default: Bytes): Variable {
    var own := OwnName(sig, suffix);
    if Given(env, own) then Variable(env.lookup(own).value, own, true) else Global(env, BaseName(suffix), default)
  }

  function SkipVerify(env: Env): Variable {
    Global(env, "UPSTREAM_TLS_INSECURE_SKIP_VERIFY", "false")
  }

  function QueueSize(env: Env): Variable {
    Global(env, "UPSTREAM_QUEUE_SIZE", "1000")
  }

  function RetryLimit(env: Env): Variable {
    Global(env, "UPSTREAM_RETRY_MAX_ELAPSED", "60s")
  }

  function Certificate(env: Env, sig: Signal): Variable {
    PerSignal(env, sig, "CERTIFICATE", "")
  }

  function ClientCertificate(env: Env, sig: Signal): Variable {
    PerSignal(env, sig, "CLIENT_CERTIFICATE", "")
  }

  function ClientKey(env: Env, sig: Signal): Variable {
    PerSignal(env, sig, "CLIENT_KEY", "")
  }

  function Insecure(env: Env, sig: Signal): Variable {
    PerSignal(env, sig, "INSECURE", "false")
  }

  function VariablesOf(env: Env, sig: Signal): Variables {
    Variables(
      PerSignal(env, sig, "ENDPOINT", ""), PerSignal(env, sig, "PROTOCOL", "grpc"), PerSignal(env, sig, "HEADERS", ""),
      PerSignal(env, sig, "TIMEOUT", "10000"), PerSignal(env, sig, "COMPRESSION", "gzip"),
      Certificate(env, sig), ClientCertificate(env, sig), ClientKey(env, sig), Insecure(env, sig),
      SkipVerify(env), QueueSize(env), RetryLimit(env))
  }

  /** The read is that variable. */
  predicate Is(r: Read, v: Variable) {
    r.raw == v.text && r.name == v.name && r.perSignal == v.own
  }

  lemma ReadPerSignal(env: Env, s: Setting, sig: Signal)
    requires s.perSignal
    ensures Is(Value(env, s, sig), PerSignal(env, sig, s.suffix, s.default))
  {
    assert PREFIX + VariablePart(sig) + s.suffix == OwnName(sig, s.suffix);
  }

  lemma ReadGlobal(env: Env, s: Setting, sig: Signal)
    requires !s.perSignal
    ensures Is(Value(env, s, sig), Global(env, s.suffix, s.default))
  {
  }

  // ------------------------------------------------------------------ texts

  /** `true` in any case. */
  predicate IsTrue(text: Bytes) {
    |text| == 4 && text[0] in "tT" && text[1] in "rR" && text[2] in "uU" && text[3] in "eE"
  }

  predicate IsFalse(text: Bytes) {
    |text| == 5 && text[0] in "fF" && text[1] in "aA" && text[2] in "lL" && text[3] in "sS" && text[4] in "eE"
  }

  lemma TrueInAnyCase(text: Bytes)
    ensures Lower(text) == "true" <==> IsTrue(text)
  {
    LowerUnchanged("true");
    LowerEqualIff(text, "true");
  }

  lemma FalseInAnyCase(text: Bytes)
    ensures Lower(text) == "false" <==> IsFalse(text)
  {
    LowerUnchanged("false");
    LowerEqualIff(text, "false");
  }

  lemma BoolRead(text: Bytes)
    ensures ParseBool(text) ==
            if IsTrue(text) then Ok(true) else if IsFalse(text) then Ok(false) else Err(NotABool)
  {
    TrueInAnyCase(text);
    FalseInAnyCase(text);
  }

  predicate HTTP(lib: Library, text: Bytes) {
    var u := lib.parseURL(text);
    u.Some? && (u.value.scheme == "http" || u.value.scheme == "https") && u.value.hostname != []
  }

  /** Nothing beyond scheme, host, port and path. */
  predicate Bare(u: URL) {
    !u.hasUser && u.rawQuery == [] && u.fragment == []
  }

  /** An endpoint the protocol can use: for gRPC a host and port and no more. */
  predicate Reachable(lib: Library, v: Variables) {
    && HTTP(lib, v.endpoint.text)
    && var u := lib.parseURL(v.endpoint.text).value;
       Bare(u) && (v.protocol.text == "grpc" ==> u.port != [] && (u.path == "" || u.path == "/"))
  }

  predicate Within(n: Option<int>, lo: int, hi: int) {
    n.Some? && lo <= n.value <= hi
  }

  predicate ProtocolKnown(v: Variables) {
    v.protocol.text == "grpc" || v.protocol.text == "http/protobuf"
  }

  /** Every variable is present where it must be, and has a text it may have. */
  predicate Parses(lib: Library, v: Variables) {
    && ProtocolKnown(v) && v.endpoint.text != [] && Reachable(lib, v)
    && (IsTrue(v.insecure.text) || IsFalse(v.insecure.text))
    && (IsTrue(v.skipVerify.text) || IsFalse(v.skipVerify.text))
    && HeadersOf(v.headers.text).Ok?
    && Within(lib.parseInt(v.timeout.text), 1, 3_600_000)
    && (v.compression.text == "gzip" || v.compression.text == "none")
    && lib.parseInt(v.queueSize.text).Some? && lib.parseInt(v.queueSize.text).value >= 1
    && lib.parseDuration(v.retry.text).Some? && lib.parseDuration(v.retry.text).value >= 0
  }

  /** No TLS: the scheme says so, or INSECURE does for gRPC. */
  predicate NoTLS(lib: Library, v: Variables)
    requires Parses(lib, v)
  {
    lib.parseURL(v.endpoint.text).value.scheme == "http" || (v.protocol.text == "grpc" && IsTrue(v.insecure.text))
  }

  // ------------------------------------------------------------- the rules

  /** The signal's own INSECURE=true on an https upstream that is not gRPC. */
  predicate InsecureMisplaced(lib: Library, v: Variables)
    requires Parses(lib, v)
  {
    && v.protocol.text == "http/protobuf" && IsTrue(v.insecure.text) && v.insecure.own
    && lib.parseURL(v.endpoint.text).value.scheme == "https"
  }

  predicate PairBroken(v: Variables) {
    (v.clientCertificate.text == []) != (v.clientKey.text == [])
  }

  /** A TLS file of the signal's own. */
  predicate OwnFileSet(v: Variable) {
    v.own && v.text != []
  }

  predicate Consistent(lib: Library, v: Variables)
    requires Parses(lib, v)
  {
    && !InsecureMisplaced(lib, v) && !PairBroken(v)
    && (NoTLS(lib, v) ==>
          !OwnFileSet(v.certificate) && !OwnFileSet(v.clientCertificate) && !OwnFileSet(v.clientKey))
  }

  /** The shorter of a backoff and a retry limit, a zero limit being none. */
  function Backoff(nanos: int, limit: int): int {
    if limit == 0 || nanos <= limit then nanos else limit
  }

  /** Every field of the configuration, by the variable it comes from. */
  ghost predicate Configures(lib: Library, v: Variables, cfg: ExporterConfig)
    requires Parses(lib, v)
  {
    var u, limit := lib.parseURL(v.endpoint.text).value, lib.parseDuration(v.retry.text).value;
    && (cfg.protocol.GRPC? <==> v.protocol.text == "grpc")
    && cfg.endpoint == (if v.protocol.text == "grpc" then u.host else v.endpoint.text)
    && (cfg.signalPath <==> v.protocol.text == "http/protobuf" && !v.endpoint.own)
    && (cfg.plaintext <==> NoTLS(lib, v))
    && (cfg.skipVerify <==> !NoTLS(lib, v) && IsTrue(v.skipVerify.text))
    && cfg.caFile == (if NoTLS(lib, v) then [] else v.certificate.text)
    && cfg.clientCertFile == (if NoTLS(lib, v) then [] else v.clientCertificate.text)
    && cfg.clientKeyFile == (if NoTLS(lib, v) then [] else v.clientKey.text)
    && Ok(cfg.headers) == HeadersOf(v.headers.text)
    && cfg.timeout == lib.parseInt(v.timeout.text).value * 1_000_000
    && (cfg.compression.Gzip? <==> v.compression.text == "gzip")
    && cfg.queueSize == lib.parseInt(v.queueSize.text).value
    && cfg.retryMaxElapsed == limit
    && cfg.retryInitialInterval == Backoff(5_000_000_000, limit)
    && cfg.retryMaxInterval == Backoff(30_000_000_000, limit)
  }

  // ----------------------------------------------------------------- reading

  /** The fields are those variables, each parsed as its own kind. */
  ghost predicate Holds(lib: Library, f: Fields, v: Variables) {
    && Is(f.protocol.read, v.protocol) && f.protocol.parsed == ParseProtocol(v.protocol.text)
    && Is(f.endpoint, v.endpoint)
    && (f.protocol.parsed.Ok? ==>
          f.target == ParseEndpoint(lib, f.protocol.parsed.value, v.endpoint.text, v.endpoint.own))
    && (f.protocol.parsed.Err? ==> f.target.Err?)
    && HoldsSwitches(f, v) && HoldsRest(lib, f, v)
    && Is(f.certificate, v.certificate) && Is(f.clientCertificate, v.clientCertificate) && Is(f.clientKey, v.clientKey)
  }

  ghost predicate HoldsSwitches(f: Fields, v: Variables) {
    && Is(f.insecure.read, v.insecure) && f.insecure.parsed == ParseBool(v.insecure.text)
    && Is(f.skipVerify.read, v.skipVerify) && f.skipVerify.parsed == ParseBool(v.skipVerify.text)
    && !f.insecure.read.setting.secret && !f.skipVerify.read.setting.secret && !f.protocol.read.setting.secret
    && !f.endpoint.setting.secret
  }

  ghost predicate HoldsRest(lib: Library, f: Fields, v: Variables) {
    && Is(f.headers.read, v.headers) && f.headers.parsed == ReadHeaders(v.headers.text) && f.headers.read.setting.secret
    && Is(f.timeout.read, v.timeout) && f.timeout.parsed == ParseTimeout(lib, v.timeout.text)
    && Is(f.compression.read, v.compression) && f.compression.parsed == ParseCompression(v.compression.text)
    && Is(f.queueSize.read, v.queueSize) && f.queueSize.parsed == ParseQueueSize(lib, v.queueSize.text)
    && Is(f.retry.read, v.retry) && f.retry.parsed == ParseRetry(lib, v.retry.text)
    && !f.timeout.read.setting.secret && !f.compression.read.setting.secret && !f.queueSize.read.setting.secret
    && !f.retry.read.setting.secret
  }

  lemma TargetRead(env: Env, sig: Signal)
    ensures Is(Value(env, PROTOCOL, sig), VariablesOf(env, sig).protocol)
    ensures Is(Value(env, ENDPOINT, sig), VariablesOf(env, sig).endpoint)
    ensures Is(Value(env, INSECURE, sig), Insecure(env, sig)) && Is(Value(env, SKIP_VERIFY, sig), SkipVerify(env))
  {
    ReadPerSignal(env, PROTOCOL, sig);
    ReadPerSignal(env, ENDPOINT, sig);
    ReadPerSignal(env, INSECURE, sig);
    ReadGlobal(env, SKIP_VERIFY, sig);
  }

  lemma RequestRead(env: Env, sig: Signal)
    ensures Is(Value(env, HEADERS, sig), VariablesOf(env, sig).headers)
    ensures Is(Value(env, TIMEOUT, sig), VariablesOf(env, sig).timeout)
    ensures Is(Value(env, COMPRESSION, sig), VariablesOf(env, sig).compression)
    ensures Is(Value(env, QUEUE_SIZE, sig), QueueSize(env)) && Is(Value(env, RETRY_MAX_ELAPSED, sig), RetryLimit(env))
  {
    ReadPerSignal(env, HEADERS, sig);
    ReadPerSignal(env, TIMEOUT, sig);
    ReadPerSignal(env, COMPRESSION, sig);
    ReadGlobal(env, QUEUE_SIZE, sig);
    ReadGlobal(env, RETRY_MAX_ELAPSED, sig);
  }

  lemma FilesRead(env: Env, sig: Signal)
    ensures Is(Value(env, CERTIFICATE, sig), Certificate(env, sig))
    ensures Is(Value(env, CLIENT_CERTIFICATE, sig), ClientCertificate(env, sig))
    ensures Is(Value(env, CLIENT_KEY, sig), ClientKey(env, sig))
  {
    ReadPerSignal(env, CERTIFICATE, sig);
    ReadPerSignal(env, CLIENT_CERTIFICATE, sig);
    ReadPerSignal(env, CLIENT_KEY, sig);
  }

  /** A read keeps the setting it is of. */
  lemma ReadSetting(env: Env, s: Setting, sig: Signal)
    ensures Value(env, s, sig).setting == s
  {
  }

  lemma FieldsRead(env: Env, sig: Signal)
    ensures Holds(env.lib, ReadFields(env, sig), VariablesOf(env, sig))
  {
    TargetRead(env, sig);
    RequestRead(env, sig);
    FilesRead(env, sig);
    forall s ensures Value(env, s, sig).setting == s {
      ReadSetting(env, s, sig);
    }
  }

  lemma EndpointRead(lib: Library, f: Fields, v: Variables)
    requires Holds(lib, f, v) && ProtocolKnown(v)
    ensures f.protocol.parsed == Ok(if v.protocol.text == "grpc" then GRPC else HTTPProtobuf)
    ensures f.target.Ok? <==> Reachable(lib, v)
  {
  }

  lemma WellFormedRead(lib: Library, f: Fields, v: Variables)
    requires Holds(lib, f, v)
    ensures WellFormed(f) <==> Parses(lib, v)
  {
    BoolRead(v.insecure.text);
    BoolRead(v.skipVerify.text);
    if ProtocolKnown(v) {
      EndpointRead(lib, f, v);
    }
  }

  lemma PlaintextRead(lib: Library, f: Fields, v: Variables)
    requires Holds(lib, f, v) && Parses(lib, v) && WellFormed(f)
    ensures Plaintext(f) <==> NoTLS(lib, v)
    ensures f.target.value.plaintext <==> lib.parseURL(v.endpoint.text).value.scheme == "http"
    ensures f.insecure.parsed.value <==> IsTrue(v.insecure.text)
  {
    BoolRead(v.insecure.text);
    EndpointRead(lib, f, v);
  }

  lemma ConfigRead(lib: Library, f: Fields, v: Variables)
    requires Holds(lib, f, v) && Parses(lib, v) && WellFormed(f)
    ensures Configures(lib, v, Config(f))
  {
    PlaintextRead(lib, f, v);
    EndpointRead(lib, f, v);
    BoolRead(v.skipVerify.text);
  }

  lemma CrossRead(lib: Library, f: Fields, v: Variables, sig: Signal)
    requires Holds(lib, f, v) && Parses(lib, v) && WellFormed(f)
    ensures CrossFaults(f, sig) == [] <==> Consistent(lib, v)
  {
    PlaintextRead(lib, f, v);
    EndpointRead(lib, f, v);
  }

  /** A signal resolves exactly when its variables parse and agree, and then to what they say. */
  lemma SignalResolvesIff(env: Env, sig: Signal)
    ensures var v, outcome := VariablesOf(env, sig), OutcomesIn(env)(sig);
            && (outcome.Ok? <==> Parses(env.lib, v) && Consistent(env.lib, v))
            && (outcome.Ok? ==> Configures(env.lib, v, outcome.value))
  {
    var f, v := ReadFields(env, sig), VariablesOf(env, sig);
    FieldsRead(env, sig);
    WellFormedRead(env.lib, f, v);
    if WellFormed(f) {
      ConfigRead(env.lib, f, v);
      CrossRead(env.lib, f, v, sig);
    }
  }

  /** Every configuration of a successful resolution is what the environment says. */
  lemma ConfiguredByTheEnvironment(env: Env, signals: seq<Signal>, sig: Signal)
    requires Resolved(env, signals).Ok? && sig in signals
    ensures var v := VariablesOf(env, sig);
            && Parses(env.lib, v) && Consistent(env.lib, v)
            && sig in Resolved(env, signals).value && Configures(env.lib, v, Resolved(env, signals).value[sig])
  {
    ResolveTheorems.SucceedsIff(env, signals);
    SignalResolvesIff(env, sig);
  }

  // ------------------------------------------------------------------ faults

  /** The variable is named, and its text shown. */
  predicate Shows(lib: Library, v: Variable, name: Bytes, shown: Bytes) {
    name == v.name && shown == lib.masked(v.text)
  }

  /** Why an endpoint cannot be used. */
  predicate Unreachable(lib: Library, v: Variables, why: Why) {
    var u := lib.parseURL(v.endpoint.text);
    if !HTTP(lib, v.endpoint.text) then why == NotAnHTTPURL
    else if v.protocol.text == "grpc" then
      if u.value.port == [] then why == NoPort
      else !(Bare(u.value) && (u.value.path == "" || u.value.path == "/")) && why == NotHostAndPort
    else !Bare(u.value) && why == NotABareURL
  }

  /** A variable whose text it may not have is reported under its name; the headers' text is not shown. */
  ghost predicate Malformed(lib: Library, v: Variables, name: Bytes, shown: Bytes, why: Why) {
    match why
    case NotAProtocol => Shows(lib, v.protocol, name, shown) && !ProtocolKnown(v)
    case NotACompression =>
      Shows(lib, v.compression, name, shown) && v.compression.text != "gzip" && v.compression.text != "none"
    case NotABool =>
      || (Shows(lib, v.insecure, name, shown) && !IsTrue(v.insecure.text) && !IsFalse(v.insecure.text))
      || (Shows(lib, v.skipVerify, name, shown) && !IsTrue(v.skipVerify.text) && !IsFalse(v.skipVerify.text))
    case NotATimeout => Shows(lib, v.timeout, name, shown) && !Within(lib.parseInt(v.timeout.text), 1, 3_600_000)
    case NotAQueueSize =>
      var n := lib.parseInt(v.queueSize.text); Shows(lib, v.queueSize, name, shown) && (n.None? || n.value < 1)
    case NotARetryLimit =>
      var d := lib.parseDuration(v.retry.text); Shows(lib, v.retry, name, shown) && (d.None? || d.value < 0)
    case BadPair(n, fault) => name == v.headers.name && shown == [] && HeadersOf(v.headers.text) == Err((n, fault))
    case _ =>
      Shows(lib, v.endpoint, name, shown) && v.endpoint.text != [] && ProtocolKnown(v) && Unreachable(lib, v, why)
  }

  /** The faults of a signal whose variables do not all parse. */
  ghost predicate BlamesText(lib: Library, v: Variables, fault: Fault) {
    match fault
    case Required(name) => name == v.endpoint.name && v.endpoint.text == []
    case Invalid(name, shown, why) => Malformed(lib, v, name, shown, why)
    case _ => false
  }

  /** The faults of a signal whose variables parse but do not agree. */
  ghost predicate BlamesRules(lib: Library, v: Variables, sig: Signal, fault: Fault)
    requires Parses(lib, v)
  {
    match fault
    case InsecureOverHTTP(name, endpoint) =>
      name == v.insecure.name && endpoint == v.endpoint.name && InsecureMisplaced(lib, v)
    case Unpaired(certificate, key) =>
      certificate == v.clientCertificate.name && key == v.clientKey.name && PairBroken(v)
    case FileOnPlaintext(name, of) =>
      && of == sig && NoTLS(lib, v)
      && (|| (name == v.certificate.name && OwnFileSet(v.certificate))
          || (name == v.clientCertificate.name && OwnFileSet(v.clientCertificate))
          || (name == v.clientKey.name && OwnFileSet(v.clientKey)))
    case _ => false
  }

  ghost predicate Blames(lib: Library, v: Variables, sig: Signal, fault: Fault) {
    if Parses(lib, v) then BlamesRules(lib, v, sig, fault) else BlamesText(lib, v, fault)
  }

  lemma CheckedIs<T>(lib: Library, r: Read, parsed: Result<T, Why>, fault: Fault)
    ensures fault in Checked(lib, r, parsed) <==>
            parsed.Err? && fault == Invalid(r.name, if r.setting.secret then [] else lib.masked(r.raw), parsed.error)
  {
  }

  ghost predicate BlamesEndpoint(lib: Library, v: Variables, fault: Fault) {
    || (fault == Required(v.endpoint.name) && v.endpoint.text == [])
    || (&& fault.Invalid? && Shows(lib, v.endpoint, fault.name, fault.value)
        && v.endpoint.text != [] && ProtocolKnown(v) && Unreachable(lib, v, fault.why))
  }

  ghost predicate BlamesTarget(lib: Library, v: Variables, fault: Fault) {
    || BlamesEndpoint(lib, v, fault)
    || (&& fault.Invalid? && fault.why == NotAProtocol && Shows(lib, v.protocol, fault.name, fault.value)
        && !ProtocolKnown(v))
    || (&& fault.Invalid? && fault.why == NotABool && Shows(lib, v.insecure, fault.name, fault.value)
        && !IsTrue(v.insecure.text) && !IsFalse(v.insecure.text))
  }

  ghost predicate BlamesRequest(lib: Library, v: Variables, fault: Fault) {
    && fault.Invalid?
    && (|| (&& fault.why == NotABool && Shows(lib, v.skipVerify, fault.name, fault.value)
            && !IsTrue(v.skipVerify.text) && !IsFalse(v.skipVerify.text))
        || (&& fault.why.BadPair? && fault.name == v.headers.name && fault.value == []
            && HeadersOf(v.headers.text) == Err((fault.why.n, fault.why.fault)))
        || (&& fault.why == NotATimeout && Shows(lib, v.timeout, fault.name, fault.value)
            && !Within(lib.parseInt(v.timeout.text), 1, 3_600_000)))
  }

  ghost predicate BlamesDelivery(lib: Library, v: Variables, fault: Fault) {
    && fault.Invalid?
    && (|| (&& fault.why == NotACompression && Shows(lib, v.compression, fault.name, fault.value)
            && v.compression.text != "gzip" && v.compression.text != "none")
        || (&& fault.why == NotAQueueSize && Shows(lib, v.queueSize, fault.name, fault.value)
            && (lib.parseInt(v.queueSize.text).None? || lib.parseInt(v.queueSize.text).value < 1))
        || (&& fault.why == NotARetryLimit && Shows(lib, v.retry, fault.name, fault.value)
            && (lib.parseDuration(v.retry.text).None? || lib.parseDuration(v.retry.text).value < 0)))
  }

  lemma EndpointFaultRead(lib: Library, f: Fields, v: Variables, fault: Fault)
    requires Holds(lib, f, v)
    ensures fault in EndpointFaults(lib, f) <==> BlamesEndpoint(lib, v, fault)
  {
    CheckedIs(lib, f.endpoint, f.target, fault);
    if ProtocolKnown(v) {
      EndpointRead(lib, f, v);
    }
  }

  lemma TargetFaultRead(lib: Library, f: Fields, v: Variables, fault: Fault)
    requires Holds(lib, f, v)
    ensures fault in TargetFaults(lib, f) <==> BlamesTarget(lib, v, fault)
  {
    EndpointFaultRead(lib, f, v, fault);
    CheckedIs(lib, f.protocol.read, f.protocol.parsed, fault);
    CheckedIs(lib, f.insecure.read, f.insecure.parsed, fault);
    BoolRead(v.insecure.text);
  }

  lemma RequestFaultRead(lib: Library, f: Fields, v: Variables, fault: Fault)
    requires Holds(lib, f, v)
    ensures fault in RequestFaults(lib, f) <==> BlamesRequest(lib, v, fault)
  {
    CheckedIs(lib, f.skipVerify.read, f.skipVerify.parsed, fault);
    CheckedIs(lib, f.headers.read, f.headers.parsed, fault);
    CheckedIs(lib, f.timeout.read, f.timeout.parsed, fault);
    BoolRead(v.skipVerify.text);
  }

  lemma DeliveryFaultRead(lib: Library, f: Fields, v: Variables, fault: Fault)
    requires Holds(lib, f, v)
    ensures fault in DeliveryFaults(lib, f) <==> BlamesDelivery(lib, v, fault)
  {
    CheckedIs(lib, f.compression.read, f.compression.parsed, fault);
    CheckedIs(lib, f.queueSize.read, f.queueSize.parsed, fault);
    CheckedIs(lib, f.retry.read, f.retry.parsed, fault);
  }

  lemma TextFaultParts(lib: Library, v: Variables, fault: Fault)
    ensures BlamesText(lib, v, fault) <==>
            BlamesTarget(lib, v, fault) || BlamesRequest(lib, v, fault) || BlamesDelivery(lib, v, fault)
  {
  }

  lemma TextFaultRead(lib: Library, f: Fields, v: Variables, fault: Fault)
    requires Holds(lib, f, v)
    ensures fault in FieldFaults(lib, f) <==> BlamesText(lib, v, fault)
  {
    TargetFaultRead(lib, f, v, fault);
    RequestFaultRead(lib, f, v, fault);
    DeliveryFaultRead(lib, f, v, fault);
    TextFaultParts(lib, v, fault);
  }

  lemma OwnFilesRead(lib: Library, f: Fields, v: Variables, sig: Signal, fault: Fault)
    requires Holds(lib, f, v)
    ensures fault in OwnFiles(f, sig) <==>
            && fault.FileOnPlaintext? && fault.sig == sig
            && (|| (fault.name == v.certificate.name && OwnFileSet(v.certificate))
                || (fault.name == v.clientCertificate.name && OwnFileSet(v.clientCertificate))
                || (fault.name == v.clientKey.name && OwnFileSet(v.clientKey)))
  {
  }

  lemma RuleFaultRead(lib: Library, f: Fields, v: Variables, sig: Signal, fault: Fault)
    requires Holds(lib, f, v) && Parses(lib, v) && WellFormed(f)
    ensures fault in CrossFaults(f, sig) <==> BlamesRules(lib, v, sig, fault)
  {
    PlaintextRead(lib, f, v);
    EndpointRead(lib, f, v);
    OwnFilesRead(lib, f, v, sig, fault);
  }

  lemma FaultRead(lib: Library, f: Fields, v: Variables, sig: Signal, fault: Fault)
    requires Holds(lib, f, v)
    ensures fault in FaultsIn(Outcome(lib, f, sig)) <==> Blames(lib, v, sig, fault)
  {
    WellFormedRead(lib, f, v);
    if WellFormed(f) {
      RuleFaultRead(lib, f, v, sig, fault);
    } else {
      TextFaultRead(lib, f, v, fault);
    }
  }

  /** A signal has a fault exactly when its variables call for it. */
  lemma SignalFaultIff(env: Env, sig: Signal, fault: Fault)
    ensures fault in FaultsIn(OutcomesIn(env)(sig)) <==> Blames(env.lib, VariablesOf(env, sig), sig, fault)
  {
    FieldsRead(env, sig);
    FaultRead(env.lib, ReadFields(env, sig), VariablesOf(env, sig), sig, fault);
  }

  // ---------------------------------------------------------- across signals

  /** Each signal's variables. */
  type Readings = Signal -> Variables

  function ReadingsIn(env: Env): Readings {
    sig => VariablesOf(env, sig)
  }

  ghost predicate Resolves(lib: Library, v: Variables) {
    Parses(lib, v) && Consistent(lib, v)
  }

  ghost predicate AllResolve(lib: Library, signals: seq<Signal>, vars: Readings) {
    forall sig :: sig in signals ==> Resolves(lib, vars(sig))
  }

  /** The faults of base variables that apply to no upstream, once every signal resolves. */
  ghost predicate BlamesBase(env: Env, signals: seq<Signal>, vars: Readings, fault: Fault)
    requires AllResolve(env.lib, signals, vars)
  {
    match fault
    case InsecureUnused(name) =>
      && name == BaseName("INSECURE")
      && env.lookup(name).Some? && IsTrue(env.lookup(name).value)
      && forall sig :: sig in signals ==> vars(sig).protocol.text != "grpc"
    case FileUnused(name) =>
      && name in [BaseName("CERTIFICATE"), BaseName("CLIENT_CERTIFICATE"), BaseName("CLIENT_KEY")]
      && Given(env, name)
      && forall sig :: sig in signals ==> NoTLS(env.lib, vars(sig))
    case _ => false
  }

  /** The fault is called for, by a signal's variables or by a base variable nothing uses. */
  ghost predicate Reported(env: Env, signals: seq<Signal>, vars: Readings, fault: Fault) {
    || (exists sig :: sig in signals && Blames(env.lib, vars(sig), sig, fault))
    || (DistinctSignals(signals) && AllResolve(env.lib, signals, vars) && BlamesBase(env, signals, vars, fault))
  }

  /** The outcomes are what those variables come to. */
  ghost predicate ComesTo(lib: Library, vars: Readings, outcomes: Outcomes) {
    && (forall sig :: outcomes(sig).Ok? <==> Resolves(lib, vars(sig)))
    && (forall sig :: outcomes(sig).Ok? ==> Configures(lib, vars(sig), outcomes(sig).value))
  }

  ghost predicate SomeGRPC(signals: seq<Signal>, vars: Readings) {
    exists sig :: sig in signals && vars(sig).protocol.text == "grpc"
  }

  ghost predicate SomeTLS(lib: Library, signals: seq<Signal>, vars: Readings)
    requires AllResolve(lib, signals, vars)
  {
    exists sig :: sig in signals && !NoTLS(lib, vars(sig))
  }

  lemma AllResolveIff(lib: Library, signals: seq<Signal>, vars: Readings, outcomes: Outcomes)
    requires ComesTo(lib, vars, outcomes)
    ensures AllResolve(lib, signals, vars) <==> Faultless(signals, outcomes)
    ensures AllResolve(lib, signals, vars) ==>
              && (AnyGRPC(signals, outcomes) <==> SomeGRPC(signals, vars))
              && (AnyTLS(signals, outcomes) <==> SomeTLS(lib, signals, vars))
  {
  }

  lemma {:induction false} UnusedFilesAre(env: Env, rows: seq<Setting>, fault: Fault)
    ensures fault in UnusedFiles(env, rows) <==>
            && fault.FileUnused? && Given(env, fault.name)
            && exists i :: 0 <= i < |rows| && rows[i].tlsFile && fault.name == rows[i].BaseName()
  {
    if rows != [] {
      var n := |rows| - 1;
      UnusedFilesAre(env, rows[..n], fault);
      assert rows == rows[..n] + [rows[n]];
    }
  }

  lemma FileRows(name: Bytes)
    ensures (exists i :: 0 <= i < |SETTINGS| && SETTINGS[i].tlsFile && name == SETTINGS[i].BaseName()) <==>
            name in [BaseName("CERTIFICATE"), BaseName("CLIENT_CERTIFICATE"), BaseName("CLIENT_KEY")]
  {
    assert SETTINGS[5] == CERTIFICATE && SETTINGS[6] == CLIENT_CERTIFICATE && SETTINGS[7] == CLIENT_KEY;
  }

  lemma UnusedFileIff(env: Env, fault: Fault)
    ensures fault in UnusedFiles(env, SETTINGS) <==>
            && fault.FileUnused? && Given(env, fault.name)
            && fault.name in [BaseName("CERTIFICATE"), BaseName("CLIENT_CERTIFICATE"), BaseName("CLIENT_KEY")]
  {
    UnusedFilesAre(env, SETTINGS, fault);
    if fault.FileUnused? {
      FileRows(fault.name);
    }
  }

  lemma UnusedInsecureIff(env: Env, anyGRPC: bool, fault: Fault)
    ensures fault in UnusedInsecure(env, anyGRPC) <==>
            && fault == InsecureUnused(BaseName("INSECURE")) && !anyGRPC
            && env.lookup(BaseName("INSECURE")).Some? && IsTrue(env.lookup(BaseName("INSECURE")).value)
  {
    assert INSECURE.BaseName() == BaseName("INSECURE");
    if env.lookup(BaseName("INSECURE")).Some? {
      TrueInAnyCase(env.lookup(BaseName("INSECURE")).value);
    }
  }

  ghost predicate UnusedBy(env: Env, anyGRPC: bool, anyTLS: bool, fault: Fault) {
    match fault
    case InsecureUnused(name) =>
      && name == BaseName("INSECURE")
      && env.lookup(name).Some? && IsTrue(env.lookup(name).value) && !anyGRPC
    case FileUnused(name) =>
      && name in [BaseName("CERTIFICATE"), BaseName("CLIENT_CERTIFICATE"), BaseName("CLIENT_KEY")]
      && Given(env, name) && !anyTLS
    case _ => false
  }

  lemma UnusedIff(env: Env, anyGRPC: bool, anyTLS: bool, fault: Fault)
    ensures fault in Unused(env, SETTINGS, anyGRPC, anyTLS) <==> UnusedBy(env, anyGRPC, anyTLS, fault)
  {
    UnusedFileIff(env, fault);
    UnusedInsecureIff(env, anyGRPC, fault);
  }

  lemma UnusedByIs(env: Env, signals: seq<Signal>, vars: Readings, fault: Fault)
    requires AllResolve(env.lib, signals, vars)
    ensures UnusedBy(env, SomeGRPC(signals, vars), SomeTLS(env.lib, signals, vars), fault) <==>
            BlamesBase(env, signals, vars, fault)
  {
  }

  lemma GlobalFaultsAre(env: Env, signals: seq<Signal>, outcomes: Outcomes, fault: Fault)
    ensures fault in GlobalFaults(env, signals, outcomes) <==>
            && DistinctSignals(signals) && Faultless(signals, outcomes)
            && UnusedBy(env, AnyGRPC(signals, outcomes), AnyTLS(signals, outcomes), fault)
  {
    UnusedIff(env, AnyGRPC(signals, outcomes), AnyTLS(signals, outcomes), fault);
  }

  /** A base variable is reported as unused exactly when every signal resolves and none can use it. */
  lemma BaseFaultIff(env: Env, signals: seq<Signal>, vars: Readings, outcomes: Outcomes, fault: Fault)
    requires ComesTo(env.lib, vars, outcomes)
    ensures fault in GlobalFaults(env, signals, outcomes) <==>
            && DistinctSignals(signals) && AllResolve(env.lib, signals, vars)
            && BlamesBase(env, signals, vars, fault)
  {
    AllResolveIff(env.lib, signals, vars, outcomes);
    GlobalFaultsAre(env, signals, outcomes, fault);
    if AllResolve(env.lib, signals, vars) {
      UnusedByIs(env, signals, vars, fault);
    }
  }

  lemma ReadingsDescribe(env: Env)
    ensures ComesTo(env.lib, ReadingsIn(env), OutcomesIn(env))
  {
    forall sig
      ensures OutcomesIn(env)(sig).Ok? <==> Resolves(env.lib, ReadingsIn(env)(sig))
      ensures OutcomesIn(env)(sig).Ok? ==> Configures(env.lib, ReadingsIn(env)(sig), OutcomesIn(env)(sig).value)
    {
      SignalResolvesIff(env, sig);
    }
  }

  /** The faults in the outcomes are those the variables call for. */
  ghost predicate CallsFor(lib: Library, vars: Readings, outcomes: Outcomes) {
    forall sig, fault :: fault in FaultsIn(outcomes(sig)) <==> Blames(lib, vars(sig), sig, fault)
  }

  lemma ReadingsBlame(env: Env)
    ensures CallsFor(env.lib, ReadingsIn(env), OutcomesIn(env))
  {
    forall sig, fault
      ensures fault in FaultsIn(OutcomesIn(env)(sig)) <==> Blames(env.lib, ReadingsIn(env)(sig), sig, fault)
    {
      SignalFaultIff(env, sig, fault);
    }
  }

  lemma ReportedIff(env: Env, signals: seq<Signal>, vars: Readings, outcomes: Outcomes, fault: Fault)
    requires ComesTo(env.lib, vars, outcomes) && CallsFor(env.lib, vars, outcomes)
    ensures Reported(env, signals, vars, fault) <==>
            || (exists sig :: sig in signals && fault in FaultsIn(outcomes(sig)))
            || fault in GlobalFaults(env, signals, outcomes)
  {
    BaseFaultIff(env, signals, vars, outcomes, fault);
  }

  lemma CalledIff(env: Env, signals: seq<Signal>, vars: Readings, outcomes: Outcomes, text: Bytes)
    requires ComesTo(env.lib, vars, outcomes) && CallsFor(env.lib, vars, outcomes)
    ensures ResolveTheorems.Called(env, signals, outcomes, text) <==>
            exists fault :: env.lib.text(fault) == text && Reported(env, signals, vars, fault)
  {
    forall fault
      ensures Reported(env, signals, vars, fault) <==>
              || (exists sig :: sig in signals && fault in FaultsIn(outcomes(sig)))
              || fault in GlobalFaults(env, signals, outcomes)
    {
      ReportedIff(env, signals, vars, outcomes, fault);
    }
  }

  /** What a failed resolution reports is exactly what the environment calls for, each text once. */
  lemma ReportedExactly(env: Env, signals: seq<Signal>, text: Bytes)
    requires Resolved(env, signals).Err?
    ensures NoRepeats(env.lib, Resolved(env, signals).error)
    ensures text in Texts(env.lib, Resolved(env, signals).error) <==>
            exists fault :: env.lib.text(fault) == text && Reported(env, signals, ReadingsIn(env), fault)
  {
    ResolveTheorems.FailureIsExact(env, signals, OutcomesIn(env));
    ReadingsDescribe(env);
    ReadingsBlame(env);
    CalledIff(env, signals, ReadingsIn(env), OutcomesIn(env), text);
  }

  lemma NothingReportedIff(env: Env, signals: seq<Signal>, vars: Readings, outcomes: Outcomes)
    requires ComesTo(env.lib, vars, outcomes) && CallsFor(env.lib, vars, outcomes) && Proper(outcomes)
    ensures Faultless(signals, outcomes) && GlobalFaults(env, signals, outcomes) == [] <==>
            forall fault :: !Reported(env, signals, vars, fault)
  {
    forall fault
      ensures Reported(env, signals, vars, fault) <==>
              || (exists sig :: sig in signals && fault in FaultsIn(outcomes(sig)))
              || fault in GlobalFaults(env, signals, outcomes)
    {
      ReportedIff(env, signals, vars, outcomes, fault);
    }
    var global := GlobalFaults(env, signals, outcomes);
    if global != [] {
      assert global[0] in global && Reported(env, signals, vars, global[0]);
    }
    if sig :| sig in signals && outcomes(sig).Err? {
      var fault := outcomes(sig).error[0];
      assert fault in FaultsIn(outcomes(sig)) && Reported(env, signals, vars, fault);
    }
  }

  /** A resolution succeeds exactly when the environment calls for no fault. */
  lemma SucceedsWhenNothingIsReported(env: Env, signals: seq<Signal>)
    ensures Resolved(env, signals).Ok? <==> forall fault :: !Reported(env, signals, ReadingsIn(env), fault)
  {
    ResolveTheorems.SucceedsIff(env, signals);
    ReadingsDescribe(env);
    ReadingsBlame(env);
    OutcomesDescribed(env);
    NothingReportedIff(env, signals, ReadingsIn(env), OutcomesIn(env));
  }
}
