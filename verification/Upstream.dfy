/**
 The OTLP exporter variables and what they resolve to for one signal: the variable
 table, the parsers, the faults of a signal in the order they are found, and the
 configuration of a signal that has none.
 */
module Upstream {
  import opened Wrappers
  import opened Text
  import opened Headers

  // -------------------------------------------------------------- variables

  datatype Signal = Traces | Logs | Metrics

  const SIGNALS := [Traces, Logs, Metrics]

  const PREFIX: Bytes := "OTEL_EXPORTER_OTLP_"

  function VariablePart(sig: Signal): Bytes {
    match sig
    case Traces => "TRACES_"
    case Logs => "LOGS_"
    case Metrics => "METRICS_"
  }

  /** One row of the variable table. */
  datatype Setting = Setting(suffix: Bytes, perSignal: bool, secret: bool, tlsFile: bool, default: Bytes) {
    function BaseName(): Bytes {
      if perSignal then PREFIX + suffix else suffix
    }

    function SignalName(sig: Signal): Bytes {
      if perSignal then PREFIX + VariablePart(sig) + suffix else suffix
    }
  }

  const ENDPOINT := Setting("ENDPOINT", true, false, false, "")
  const PROTOCOL := Setting("PROTOCOL", true, false, false, "grpc")
  const HEADERS := Setting("HEADERS", true, true, false, "")
  const TIMEOUT := Setting("TIMEOUT", true, false, false, "10000")
  const COMPRESSION := Setting("COMPRESSION", true, false, false, "gzip")
  const CERTIFICATE := Setting("CERTIFICATE", true, false, true, "")
  const CLIENT_CERTIFICATE := Setting("CLIENT_CERTIFICATE", true, false, true, "")
  const CLIENT_KEY := Setting("CLIENT_KEY", true, false, true, "")
  const INSECURE := Setting("INSECURE", true, false, false, "false")
  const SKIP_VERIFY := Setting("UPSTREAM_TLS_INSECURE_SKIP_VERIFY", false, false, false, "false")
  const QUEUE_SIZE := Setting("UPSTREAM_QUEUE_SIZE", false, false, false, "1000")
  const RETRY_MAX_ELAPSED := Setting("UPSTREAM_RETRY_MAX_ELAPSED", false, false, false, "60s")

  const SETTINGS := [ENDPOINT, PROTOCOL, HEADERS, TIMEOUT, COMPRESSION, CERTIFICATE, CLIENT_CERTIFICATE,
                     CLIENT_KEY, INSECURE, SKIP_VERIFY, QUEUE_SIZE, RETRY_MAX_ELAPSED]

  // ------------------------------------------------------------------ faults

  /** Why a value does not parse. */
  datatype Why =
    | NotAProtocol
    | NotACompression
    | NotABool
    | NotATimeout
    | NotAQueueSize
    | NotARetryLimit
    | BadPair(n: nat, fault: PairFault)
    | NotAnHTTPURL
    | NoPort
    | NotHostAndPort
    | NotABareURL

  datatype Fault =
    | Required(name: Bytes)
    | Invalid(name: Bytes, value: Bytes, why: Why)
    | InsecureOverHTTP(name: Bytes, endpointName: Bytes)
    | Unpaired(certificateName: Bytes, keyName: Bytes)
    | FileOnPlaintext(name: Bytes, sig: Signal)
    | InsecureUnused(name: Bytes)
    | FileUnused(name: Bytes)

  // ---------------------------------------------------------------- library

  datatype URL = URL(scheme: Bytes, hostname: Bytes, port: Bytes, host: Bytes, hasUser: bool,
                     path: Bytes, rawQuery: Bytes, fragment: Bytes)

  /**
   Total functions nothing is known about: the Go library's parsers, the value an error
   shows (a URL's password masked), and an error's text, by which repeats are recognised.
   */
  datatype Library = Library(
    parseURL: Bytes -> Option<URL>,
    parseInt: Bytes -> Option<int>,
    parseDuration: Bytes -> Option<int>,
    masked: Bytes -> Bytes,
    text: Fault -> Bytes)

  /** The environment a resolution reads. */
  datatype Env = Env(lookup: Bytes -> Option<Bytes>, lib: Library)

  // ------------------------------------------------------------------- reads

  /** One setting's value for a signal, and the variable it came from. */
  datatype Read = Read(setting: Setting, name: Bytes, raw: Bytes, perSignal: bool)

  predicate IsSet(env: Env, name: Bytes) {
    env.lookup(name).Some? && env.lookup(name).value != []
  }

  /** `resolver.value`: the signal's own variable, then the base one, then the default; empty is unset. */
  function Value(env: Env, s: Setting, sig: Signal): Read {
    if s.perSignal && IsSet(env, s.SignalName(sig)) then
      Read(s, s.SignalName(sig), env.lookup(s.SignalName(sig)).value, true)
    else if IsSet(env, s.BaseName()) then
      Read(s, s.BaseName(), env.lookup(s.BaseName()).value, false)
    else Read(s, s.BaseName(), s.default, false)
  }

  function InvalidValue(lib: Library, v: Read, why: Why): Fault {
    Invalid(v.name, if v.setting.secret then [] else lib.masked(v.raw), why)
  }

  // ----------------------------------------------------------------- parsers

  datatype Protocol = GRPC | HTTPProtobuf
  datatype Compression = Gzip | NoCompression

  function ParseProtocol(raw: Bytes): Result<Protocol, Why> {
    if raw == "grpc" then Ok(GRPC)
    else if raw == "http/protobuf" then Ok(HTTPProtobuf)
    else Err(NotAProtocol)
  }

  function ParseCompression(raw: Bytes): Result<Compression, Why> {
    if raw == "gzip" then Ok(Gzip)
    else if raw == "none" then Ok(NoCompression)
    else Err(NotACompression)
  }

  function ParseBool(raw: Bytes): Result<bool, Why> {
    if Lower(raw) == "true" then Ok(true)
    else if Lower(raw) == "false" then Ok(false)
    else Err(NotABool)
  }

  const MILLISECOND := 1_000_000
  const SECOND := 1_000_000_000
  const MAX_TIMEOUT_MS := 3_600_000

  function ParseTimeout(lib: Library, raw: Bytes): Result<int, Why> {
    var ms := lib.parseInt(raw);
    if ms.None? || ms.value < 1 || ms.value > MAX_TIMEOUT_MS then
      Err(NotATimeout)
    else Ok(ms.value * MILLISECOND)
  }

  function ParseQueueSize(lib: Library, raw: Bytes): Result<int, Why> {
    var n := lib.parseInt(raw);
    if n.None? || n.value < 1 then Err(NotAQueueSize) else Ok(n.value)
  }

  function ParseRetry(lib: Library, raw: Bytes): Result<int, Why> {
    var d := lib.parseDuration(raw);
    if d.None? || d.value < 0 then Err(NotARetryLimit) else Ok(d.value)
  }

  function ReadHeaders(raw: Bytes): Result<Bytes, Why> {
    match HeadersOf(raw)
    case Ok(h) => Ok(h)
    case Err((n, fault)) => Err(BadPair(n, fault))
  }

  /** What an endpoint contributes to a configuration. */
  datatype Target = Target(endpoint: Bytes, plaintext: bool, signalPath: bool)

  /** `ExporterConfig.setEndpoint`. */
  function ParseEndpoint(lib: Library, protocol: Protocol, raw: Bytes, perSignal: bool): (r: Result<Target, Why>)
    ensures r.Ok? ==> lib.parseURL(raw).Some?
                      && (r.value.plaintext <==> lib.parseURL(raw).value.scheme == "http")
                      && (!r.value.plaintext ==> lib.parseURL(raw).value.scheme == "https")
                      && (r.value.signalPath <==> protocol.HTTPProtobuf? && !perSignal)
    ensures r.Ok? && protocol.HTTPProtobuf? ==> r.value.endpoint == raw
    ensures r.Ok? && protocol.GRPC? ==>
              var url := lib.parseURL(raw).value;
              && r.value.endpoint == url.host && url.port != []
              && !url.hasUser && url.path in ["", "/"] && url.rawQuery == [] && url.fragment == []
  {
    var u := lib.parseURL(raw);
    if u.None? || (u.value.scheme != "http" && u.value.scheme != "https") || u.value.hostname == [] then
      Err(NotAnHTTPURL)
    else
      var url, plaintext := u.value, u.value.scheme == "http";
      match protocol
      case GRPC =>
        if url.port == [] then Err(NoPort)
        else if url.hasUser || (url.path != [] && url.path != "/") || url.rawQuery != [] || url.fragment != [] then
          Err(NotHostAndPort)
        else Ok(Target(url.host, plaintext, false))
      case HTTPProtobuf =>
        if url.hasUser || url.rawQuery != [] || url.fragment != [] then
          Err(NotABareURL)
        else Ok(Target(raw, plaintext, !perSignal))
  }

  /** d, or limit when that is shorter; a zero limit is no limit. */
  function Capped(d: int, limit: int): (c: int)
    ensures c <= d && (limit > 0 ==> c <= limit) && (c == d || 0 < c == limit)
  {
    if 0 < limit < d then limit else d
  }

  // ------------------------------------------------------- one signal's faults

  /** A value and what it parses to. */
  datatype Field<T> = Field(read: Read, parsed: Result<T, Why>)

  /** Every setting as one signal reads it. `target` means nothing unless the protocol parsed. */
  datatype Fields = Fields(
    protocol: Field<Protocol>, endpoint: Read, target: Result<Target, Why>,
    insecure: Field<bool>, skipVerify: Field<bool>, headers: Field<Bytes>, timeout: Field<int>,
    compression: Field<Compression>, queueSize: Field<int>, retry: Field<int>,
    certificate: Read, clientCertificate: Read, clientKey: Read)

  function ReadFields(env: Env, sig: Signal): Fields {
    var protocol, endpoint := Value(env, PROTOCOL, sig), Value(env, ENDPOINT, sig);
    var insecure, skip, headers := Value(env, INSECURE, sig), Value(env, SKIP_VERIFY, sig), Value(env, HEADERS, sig);
    var timeout, compression := Value(env, TIMEOUT, sig), Value(env, COMPRESSION, sig);
    var queue, retry := Value(env, QUEUE_SIZE, sig), Value(env, RETRY_MAX_ELAPSED, sig);
    var p := ParseProtocol(protocol.raw);
    Fields(
      Field(protocol, p), endpoint,
      if p.Ok? then ParseEndpoint(env.lib, p.value, endpoint.raw, endpoint.perSignal) else Err(NotAProtocol),
      Field(insecure, ParseBool(insecure.raw)), Field(skip, ParseBool(skip.raw)),
      Field(headers, ReadHeaders(headers.raw)), Field(timeout, ParseTimeout(env.lib, timeout.raw)),
      Field(compression, ParseCompression(compression.raw)), Field(queue, ParseQueueSize(env.lib, queue.raw)),
      Field(retry, ParseRetry(env.lib, retry.raw)),
      Value(env, CERTIFICATE, sig), Value(env, CLIENT_CERTIFICATE, sig), Value(env, CLIENT_KEY, sig))
  }

  /** The fault of a value that does not parse, if it does not. */
  function Checked<T>(lib: Library, v: Read, parsed: Result<T, Why>): seq<Fault> {
    if parsed.Err? then [InvalidValue(lib, v, parsed.error)] else []
  }

  function EndpointFaults(lib: Library, f: Fields): seq<Fault> {
    if f.endpoint.raw == [] then [Required(f.endpoint.name)]
    else if f.protocol.parsed.Err? then []
    else Checked(lib, f.endpoint, f.target)
  }

  /** Faults in where the signal goes, in what it sends along and in how it queues. */
  function TargetFaults(lib: Library, f: Fields): seq<Fault> {
    Checked(lib, f.protocol.read, f.protocol.parsed)
    + EndpointFaults(lib, f)
    + Checked(lib, f.insecure.read, f.insecure.parsed)
  }

  function RequestFaults(lib: Library, f: Fields): seq<Fault> {
    Checked(lib, f.skipVerify.read, f.skipVerify.parsed)
    + Checked(lib, f.headers.read, f.headers.parsed)
    + Checked(lib, f.timeout.read, f.timeout.parsed)
  }

  function DeliveryFaults(lib: Library, f: Fields): seq<Fault> {
    Checked(lib, f.compression.read, f.compression.parsed)
    + Checked(lib, f.queueSize.read, f.queueSize.parsed)
    + Checked(lib, f.retry.read, f.retry.parsed)
  }

  /** The variables of a signal that are missing or malformed, in the order they are read. */
  function FieldFaults(lib: Library, f: Fields): seq<Fault> {
    TargetFaults(lib, f) + RequestFaults(lib, f) + DeliveryFaults(lib, f)
  }

  /** Every variable is present where it must be, and parses. */
  predicate WellFormed(f: Fields) {
    && f.protocol.parsed.Ok? && f.endpoint.raw != [] && f.target.Ok? && f.insecure.parsed.Ok?
    && f.skipVerify.parsed.Ok? && f.headers.parsed.Ok? && f.timeout.parsed.Ok?
    && f.compression.parsed.Ok? && f.queueSize.parsed.Ok? && f.retry.parsed.Ok?
  }

  lemma WellFormedIff(lib: Library, f: Fields)
    ensures FieldFaults(lib, f) == [] <==> WellFormed(f)
  {
  }

  datatype ExporterConfig = ExporterConfig(
    protocol: Protocol, endpoint: Bytes, signalPath: bool, plaintext: bool, skipVerify: bool,
    caFile: Bytes, clientCertFile: Bytes, clientKeyFile: Bytes,
    headers: Bytes, timeout: int, compression: Compression, queueSize: int,
    retryMaxElapsed: int, retryInitialInterval: int, retryMaxInterval: int)

  const DEFAULT_RETRY_INITIAL := 5 * SECOND
  const DEFAULT_RETRY_MAX := 30 * SECOND

  /** No TLS at all: the scheme says so, or INSECURE does for gRPC. */
  predicate Plaintext(f: Fields)
    requires WellFormed(f)
  {
    f.target.value.plaintext || (f.protocol.parsed.value.GRPC? && f.insecure.parsed.value)
  }

  /** The configuration of a signal whose variables all parse. */
  function Config(f: Fields): ExporterConfig
    requires WellFormed(f)
  {
    var plaintext, retry := Plaintext(f), f.retry.parsed.value;
    ExporterConfig(
      f.protocol.parsed.value, f.target.value.endpoint, f.target.value.signalPath, plaintext,
      !plaintext && f.skipVerify.parsed.value,
      if plaintext then [] else f.certificate.raw,
      if plaintext then [] else f.clientCertificate.raw,
      if plaintext then [] else f.clientKey.raw,
      f.headers.parsed.value, f.timeout.parsed.value, f.compression.parsed.value, f.queueSize.parsed.value,
      retry, Capped(DEFAULT_RETRY_INITIAL, retry), Capped(DEFAULT_RETRY_MAX, retry))
  }

  /** A file of the signal's own that a plaintext upstream has no use for. */
  function OwnFile(v: Read, sig: Signal): seq<Fault> {
    if v.raw != [] && v.perSignal then [FileOnPlaintext(v.name, sig)] else []
  }

  function OwnFiles(f: Fields, sig: Signal): seq<Fault> {
    OwnFile(f.certificate, sig) + OwnFile(f.clientCertificate, sig) + OwnFile(f.clientKey, sig)
  }

  /** The rules across one signal's variables, applied once each has parsed. */
  function CrossFaults(f: Fields, sig: Signal): seq<Fault>
    requires WellFormed(f)
  {
    (if f.protocol.parsed.value.HTTPProtobuf? && f.insecure.parsed.value && !f.target.value.plaintext
        && f.insecure.read.perSignal
     then [InsecureOverHTTP(f.insecure.read.name, f.endpoint.name)] else [])
    + (if (f.clientCertificate.raw == []) != (f.clientKey.raw == [])
       then [Unpaired(f.clientCertificate.name, f.clientKey.name)] else [])
    + (if Plaintext(f) then OwnFiles(f, sig) else [])
  }

  function FaultsOf(lib: Library, f: Fields, sig: Signal): seq<Fault> {
    if WellFormed(f) then CrossFaults(f, sig) else FieldFaults(lib, f)
  }

  /** What resolving one signal comes to. */
  function Outcome(lib: Library, f: Fields, sig: Signal): Result<ExporterConfig, seq<Fault>> {
    if WellFormed(f) && CrossFaults(f, sig) == [] then Ok(Config(f)) else Err(FaultsOf(lib, f, sig))
  }
}
