/**
 Resolution of the requested signals: the resolver that collects faults and reports
 each text once, the pure specification it refines, and what holds of every outcome.
 */
module Resolve {
  import opened Wrappers
  import opened Text
  import opened Upstream

  // ------------------------------------------------------------ reporting

  function Texts(lib: Library, fs: seq<Fault>): set<Bytes> {
    set f | f in fs :: lib.text(f)
  }

  /** A fault whose text was reported before is not reported again. */
  function Report(lib: Library, errs: seq<Fault>, f: Fault): seq<Fault> {
    if lib.text(f) in Texts(lib, errs) then errs else errs + [f]
  }

  function ReportAll(lib: Library, errs: seq<Fault>, fs: seq<Fault>): seq<Fault>
    decreases |fs|
  {
    if fs == [] then errs else ReportAll(lib, Report(lib, errs, fs[0]), fs[1..])
  }

  lemma {:induction false} ReportAllAppend(lib: Library, errs: seq<Fault>, a: seq<Fault>, b: seq<Fault>)
    ensures ReportAll(lib, errs, a + b) == ReportAll(lib, ReportAll(lib, errs, a), b)
    decreases |a|
  {
    if a == [] {
      assert a + b == b;
    } else {
      assert (a + b)[1..] == a[1..] + b;
      ReportAllAppend(lib, Report(lib, errs, a[0]), a[1..], b);
    }
  }

  ghost predicate NoRepeats(lib: Library, errs: seq<Fault>) {
    forall i, j :: 0 <= i < j < |errs| ==> lib.text(errs[i]) != lib.text(errs[j])
  }

  /** Reporting loses no text and repeats none. */
  lemma {:induction false} ReportAllTexts(lib: Library, errs: seq<Fault>, fs: seq<Fault>)
    requires NoRepeats(lib, errs)
    ensures NoRepeats(lib, ReportAll(lib, errs, fs))
    ensures Texts(lib, ReportAll(lib, errs, fs)) == Texts(lib, errs) + Texts(lib, fs)
    decreases |fs|
  {
    if fs != [] {
      var next := Report(lib, errs, fs[0]);
      forall i, j | 0 <= i < j < |next| ensures lib.text(next[i]) != lib.text(next[j]) {
        assert i < |errs| && lib.text(errs[i]) in Texts(lib, errs);
      }
      assert fs == [fs[0]] + fs[1..];
      assert Texts(lib, next) == Texts(lib, errs) + {lib.text(fs[0])};
      assert Texts(lib, fs) == {lib.text(fs[0])} + Texts(lib, fs[1..]);
      ReportAllTexts(lib, next, fs[1..]);
    }
  }

  // ------------------------------------------------------- specification

  type Outcomes = Signal -> Result<ExporterConfig, seq<Fault>>

  /** Each signal's outcome, a function of the environment and that signal alone. */
  function OutcomesIn(env: Env): Outcomes {
    sig => Outcome(env.lib, ReadFields(env, sig), sig)
  }

  function FaultsIn(outcome: Result<ExporterConfig, seq<Fault>>): seq<Fault> {
    if outcome.Err? then outcome.error else []
  }

  /** The faults of the signals one after another. */
  function AllFaults(signals: seq<Signal>, outcomes: Outcomes): seq<Fault> {
    if signals == [] then []
    else AllFaults(signals[..|signals| - 1], outcomes) + FaultsIn(outcomes(signals[|signals| - 1]))
  }

  predicate Faultless(signals: seq<Signal>, outcomes: Outcomes) {
    forall sig :: sig in signals ==> outcomes(sig).Ok?
  }

  predicate DistinctSignals(signals: seq<Signal>) {
    forall i, j :: 0 <= i < j < |signals| ==> signals[i] != signals[j]
  }

  predicate AnyGRPC(signals: seq<Signal>, outcomes: Outcomes) {
    exists sig :: sig in signals && outcomes(sig).Ok? && outcomes(sig).value.protocol.GRPC?
  }

  predicate AnyTLS(signals: seq<Signal>, outcomes: Outcomes) {
    exists sig :: sig in signals && outcomes(sig).Ok? && !outcomes(sig).value.plaintext
  }

  predicate BaseInsecure(env: Env) {
    var raw := env.lookup(INSECURE.BaseName());
    raw.Some? && Lower(raw.value) == "true"
  }

  function UnusedFiles(env: Env, rows: seq<Setting>): seq<Fault> {
    if rows == [] then []
    else
      var last := rows[|rows| - 1];
      UnusedFiles(env, rows[..|rows| - 1])
      + if last.tlsFile && IsSet(env, last.BaseName()) then [FileUnused(last.BaseName())] else []
  }

  function UnusedInsecure(env: Env, anyGRPC: bool): seq<Fault> {
    if !anyGRPC && BaseInsecure(env) then [InsecureUnused(INSECURE.BaseName())] else []
  }

  /** Base variables that apply to no upstream. */
  function Unused(env: Env, rows: seq<Setting>, anyGRPC: bool, anyTLS: bool): seq<Fault> {
    UnusedInsecure(env, anyGRPC) + if !anyTLS then UnusedFiles(env, rows) else []
  }

  /** The rules over all signals; they wait until every signal has resolved. */
  function GlobalFaults(env: Env, signals: seq<Signal>, outcomes: Outcomes): seq<Fault> {
    if !DistinctSignals(signals) || !Faultless(signals, outcomes) then []
    else
      Unused(env, SETTINGS, AnyGRPC(signals, outcomes), AnyTLS(signals, outcomes))
  }

  function Errors(env: Env, signals: seq<Signal>, outcomes: Outcomes): seq<Fault> {
    ReportAll(env.lib, [], AllFaults(signals, outcomes) + GlobalFaults(env, signals, outcomes))
  }

  /** What a resolution with these outcomes comes to. */
  function Combined(env: Env, signals: seq<Signal>, outcomes: Outcomes)
    : Result<map<Signal, ExporterConfig>, seq<Fault>>
  {
    var errors := Errors(env, signals, outcomes);
    if errors != [] then Err(errors) else Ok(map sig | sig in signals && outcomes(sig).Ok? :: outcomes(sig).value)
  }

  function Resolved(env: Env, signals: seq<Signal>): Result<map<Signal, ExporterConfig>, seq<Fault>> {
    Combined(env, signals, OutcomesIn(env))
  }

  // ------------------------------------------------------------- resolver

  /**
   The resolver's state. A method that parses takes the fields it parses as a parameter:
   `so` is, for the proof, the faults of the current signal so far.
   */
  class Resolver {
    const env: Env
    var errs: seq<Fault>
    var seen: set<Bytes>
    var faulted: bool
    var anyTLS: bool
    var anyGRPC: bool

    constructor (env: Env)
      ensures this.env == env && Valid() && errs == [] && !anyTLS && !anyGRPC
    {
      this.env := env;
      errs, seen, faulted, anyTLS, anyGRPC := [], {}, false, false, false;
    }

    ghost predicate Valid()
      reads this
    {
      seen == Texts(env.lib, errs)
    }

    method Fail(f: Fault)
      requires Valid()
      modifies this`errs, this`seen, this`faulted
      ensures Valid() && faulted
      ensures errs == Report(env.lib, old(errs), f)
    {
      faulted := true;
      var text := env.lib.text(f);
      if text !in seen {
        seen := seen + {text};
        errs := errs + [f];
      }
    }

    /** The faults reported for this signal, added to those reported before it, are `so`. */
    ghost predicate Reported(before: seq<Fault>, so: seq<Fault>)
      reads this
    {
      Valid() && errs == ReportAll(env.lib, before, so) && faulted == (so != [])
    }

    method FailNext(f: Fault, ghost before: seq<Fault>, ghost so: seq<Fault>)
      requires Reported(before, so)
      modifies this`errs, this`seen, this`faulted
      ensures Reported(before, so + [f])
    {
      Fail(f);
      ReportAllAppend(env.lib, before, so, [f]);
      assert [f][1..] == [];
    }

    /** `r.invalid` unless the value parsed. */
    method Check<T>(v: Read, parsed: Result<T, Why>, ghost before: seq<Fault>, ghost so: seq<Fault>)
      requires Reported(before, so)
      modifies this`errs, this`seen, this`faulted
      ensures Reported(before, so + Checked(env.lib, v, parsed))
    {
      if parsed.Err? {
        FailNext(InvalidValue(env.lib, v, parsed.error), before, so);
      } else {
        assert so + [] == so;
      }
    }

    method CheckEndpoint(f: Fields, ghost before: seq<Fault>, ghost so: seq<Fault>)
      requires Reported(before, so)
      modifies this`errs, this`seen, this`faulted
      ensures Reported(before, so + EndpointFaults(env.lib, f))
    {
      if f.endpoint.raw == [] {
        FailNext(Required(f.endpoint.name), before, so);
      } else if f.protocol.parsed.Ok? {
        Check(f.endpoint, f.target, before, so);
      } else {
        assert so + [] == so;
      }
    }

    /** Where the signal goes and how. */
    method CheckTarget(f: Fields, ghost before: seq<Fault>)
      requires Reported(before, [])
      modifies this`errs, this`seen, this`faulted
      ensures Reported(before, TargetFaults(env.lib, f))
    {
      ghost var protocol := Checked(env.lib, f.protocol.read, f.protocol.parsed);
      Check(f.protocol.read, f.protocol.parsed, before, []);
      assert [] + protocol == protocol;
      CheckEndpoint(f, before, protocol);
      Check(f.insecure.read, f.insecure.parsed, before, protocol + EndpointFaults(env.lib, f));
    }

    /** What it sends along. */
    method CheckRequests(f: Fields, ghost before: seq<Fault>, ghost so: seq<Fault>)
      requires Reported(before, so)
      modifies this`errs, this`seen, this`faulted
      ensures Reported(before, so + RequestFaults(env.lib, f))
    {
      ghost var skip := Checked(env.lib, f.skipVerify.read, f.skipVerify.parsed);
      ghost var headers := Checked(env.lib, f.headers.read, f.headers.parsed);
      Check(f.skipVerify.read, f.skipVerify.parsed, before, so);
      Check(f.headers.read, f.headers.parsed, before, so + skip);
      Check(f.timeout.read, f.timeout.parsed, before, so + skip + headers);
      assert so + skip + headers + Checked(env.lib, f.timeout.read, f.timeout.parsed) == so + RequestFaults(env.lib, f);
    }

    /** How it queues. */
    method CheckDelivery(f: Fields, ghost before: seq<Fault>, ghost so: seq<Fault>)
      requires Reported(before, so)
      modifies this`errs, this`seen, this`faulted
      ensures Reported(before, so + DeliveryFaults(env.lib, f))
    {
      ghost var compression := Checked(env.lib, f.compression.read, f.compression.parsed);
      ghost var queue := Checked(env.lib, f.queueSize.read, f.queueSize.parsed);
      Check(f.compression.read, f.compression.parsed, before, so);
      Check(f.queueSize.read, f.queueSize.parsed, before, so + compression);
      Check(f.retry.read, f.retry.parsed, before, so + compression + queue);
      assert so + compression + queue + Checked(env.lib, f.retry.read, f.retry.parsed) ==
             so + DeliveryFaults(env.lib, f);
    }

    /** The first half of `signal`: each variable in turn. */
    method CheckFields(f: Fields, ghost before: seq<Fault>)
      requires Valid() && errs == before
      modifies this`errs, this`seen, this`faulted
      ensures Reported(before, FieldFaults(env.lib, f))
    {
      faulted := false;
      CheckTarget(f, before);
      CheckRequests(f, before, TargetFaults(env.lib, f));
      CheckDelivery(f, before, TargetFaults(env.lib, f) + RequestFaults(env.lib, f));
    }

    method CheckOwnFile(v: Read, sig: Signal, ghost before: seq<Fault>, ghost so: seq<Fault>)
      requires Reported(before, so)
      modifies this`errs, this`seen, this`faulted
      ensures Reported(before, so + OwnFile(v, sig))
    {
      if v.raw != [] && v.perSignal {
        FailNext(FileOnPlaintext(v.name, sig), before, so);
      } else {
        assert so + [] == so;
      }
    }

    method CheckOwnFiles(f: Fields, sig: Signal, ghost before: seq<Fault>, ghost so: seq<Fault>)
      requires Reported(before, so)
      modifies this`errs, this`seen, this`faulted
      ensures Reported(before, so + OwnFiles(f, sig))
    {
      ghost var ca, cert := OwnFile(f.certificate, sig), OwnFile(f.clientCertificate, sig);
      CheckOwnFile(f.certificate, sig, before, so);
      CheckOwnFile(f.clientCertificate, sig, before, so + ca);
      CheckOwnFile(f.clientKey, sig, before, so + ca + cert);
      assert so + ca + cert + OwnFile(f.clientKey, sig) == so + OwnFiles(f, sig);
    }

    /** The rest of `signal`: the rules across variables, and the configuration. */
    method ApplyRules(f: Fields, sig: Signal, ghost before: seq<Fault>) returns (cfg: ExporterConfig)
      requires WellFormed(f) && Reported(before, [])
      modifies this`errs, this`seen, this`faulted, this`anyTLS, this`anyGRPC
      ensures Reported(before, CrossFaults(f, sig))
      ensures cfg == Config(f)
      ensures anyTLS == (old(anyTLS) || !cfg.plaintext)
      ensures anyGRPC == (old(anyGRPC) || cfg.protocol.GRPC?)
    {
      var retry := f.retry.parsed.value;
      cfg := ExporterConfig(
        f.protocol.parsed.value, f.target.value.endpoint, f.target.value.signalPath, f.target.value.plaintext,
        false, [], [], [],
        f.headers.parsed.value, f.timeout.parsed.value, f.compression.parsed.value, f.queueSize.parsed.value,
        retry, Capped(DEFAULT_RETRY_INITIAL, retry), Capped(DEFAULT_RETRY_MAX, retry));
      ghost var so: seq<Fault> := [];
      match cfg.protocol {
        case GRPC =>
          cfg := cfg.(plaintext := cfg.plaintext || f.insecure.parsed.value);
          anyGRPC := true;
        case HTTPProtobuf =>
          if f.insecure.parsed.value && !cfg.plaintext && f.insecure.read.perSignal {
            FailNext(InsecureOverHTTP(f.insecure.read.name, f.endpoint.name), before, so);
            so := so + [InsecureOverHTTP(f.insecure.read.name, f.endpoint.name)];
          }
      }
      if (f.clientCertificate.raw == []) != (f.clientKey.raw == []) {
        FailNext(Unpaired(f.clientCertificate.name, f.clientKey.name), before, so);
        so := so + [Unpaired(f.clientCertificate.name, f.clientKey.name)];
      }
      if cfg.plaintext {
        CheckOwnFiles(f, sig, before, so);
        so := so + OwnFiles(f, sig);
      } else {
        anyTLS := true;
        cfg := cfg.(skipVerify := f.skipVerify.parsed.value, caFile := f.certificate.raw,
                    clientCertFile := f.clientCertificate.raw, clientKeyFile := f.clientKey.raw);
      }
      assert so == CrossFaults(f, sig);
    }

    /** `resolver.signal`. */
    method ResolveSignal(f: Fields, sig: Signal) returns (cfg: Option<ExporterConfig>)
      requires Valid()
      modifies this`errs, this`seen, this`faulted, this`anyTLS, this`anyGRPC
      ensures Valid()
      ensures cfg == if Outcome(env.lib, f, sig).Ok? then Some(Outcome(env.lib, f, sig).value) else None
      ensures errs == ReportAll(env.lib, old(errs), FaultsIn(Outcome(env.lib, f, sig)))
      ensures cfg.Some? ==> anyTLS == (old(anyTLS) || !cfg.value.plaintext)
                            && anyGRPC == (old(anyGRPC) || cfg.value.protocol.GRPC?)
    {
      CheckFields(f, errs);
      WellFormedIff(env.lib, f);
      if faulted {
        return None;
      }
      var c := ApplyRules(f, sig, errs);
      if faulted {
        return None;
      }
      return Some(c);
    }
  }

  lemma {:induction false} SetOfSignals(signals: seq<Signal>)
    ensures |set sig | sig in signals| <= |signals|
    ensures |set sig | sig in signals| == |signals| <==> DistinctSignals(signals)
  {
    if signals != [] {
      var n := |signals| - 1;
      var front := signals[..n];
      SetOfSignals(front);
      assert signals == front + [signals[n]];
      assert (set sig | sig in signals) == (set sig | sig in front) + {signals[n]};
      if signals[n] in front {
        var i :| 0 <= i < n && front[i] == signals[n];
        assert (set sig | sig in signals) == (set sig | sig in front);
      } else {
        assert DistinctSignals(signals) <==> DistinctSignals(front);
      }
    }
  }

  /** The loop over signals has resolved `done`: what it has collected by then. */
  ghost predicate Progress(lib: Library, errs: seq<Fault>, anyGRPC: bool, anyTLS: bool,
                           out: map<Signal, ExporterConfig>, done: seq<Signal>, outcomes: Outcomes) {
    && errs == ReportAll(lib, [], AllFaults(done, outcomes))
    && (forall sig :: sig in out <==> sig in done && outcomes(sig).Ok?)
    && (forall sig :: sig in out ==> out[sig] == outcomes(sig).value)
    && (Faultless(done, outcomes) ==> anyGRPC == AnyGRPC(done, outcomes) && anyTLS == AnyTLS(done, outcomes))
  }

  /** What `resolver.signal` does to what the loop has collected. */
  ghost predicate Advances(lib: Library, errs: seq<Fault>, anyGRPC: bool, anyTLS: bool,
                           errs': seq<Fault>, anyGRPC': bool, anyTLS': bool,
                           outcome: Result<ExporterConfig, seq<Fault>>) {
    && errs' == ReportAll(lib, errs, FaultsIn(outcome))
    && (outcome.Ok? ==> anyTLS' == (anyTLS || !outcome.value.plaintext)
                        && anyGRPC' == (anyGRPC || outcome.value.protocol.GRPC?))
  }

  lemma FaultsStep(lib: Library, done: seq<Signal>, sig: Signal, outcomes: Outcomes)
    ensures ReportAll(lib, [], AllFaults(done + [sig], outcomes)) ==
            ReportAll(lib, ReportAll(lib, [], AllFaults(done, outcomes)), FaultsIn(outcomes(sig)))
  {
    assert (done + [sig])[..|done|] == done;
    ReportAllAppend(lib, [], AllFaults(done, outcomes), FaultsIn(outcomes(sig)));
  }

  lemma AnyStep(done: seq<Signal>, sig: Signal, outcomes: Outcomes)
    ensures forall s :: s in done + [sig] <==> s in done || s == sig
    ensures Faultless(done + [sig], outcomes) <==> Faultless(done, outcomes) && outcomes(sig).Ok?
    ensures AnyGRPC(done + [sig], outcomes) <==>
            AnyGRPC(done, outcomes) || (outcomes(sig).Ok? && outcomes(sig).value.protocol.GRPC?)
    ensures AnyTLS(done + [sig], outcomes) <==>
            AnyTLS(done, outcomes) || (outcomes(sig).Ok? && !outcomes(sig).value.plaintext)
  {
    assert forall s :: s in done + [sig] <==> s in done || s == sig;
  }

  lemma ProgressStep(lib: Library, errs: seq<Fault>, anyGRPC: bool, anyTLS: bool, out: map<Signal, ExporterConfig>,
                     errs': seq<Fault>, anyGRPC': bool, anyTLS': bool, out': map<Signal, ExporterConfig>,
                     done: seq<Signal>, sig: Signal, outcomes: Outcomes)
    requires Progress(lib, errs, anyGRPC, anyTLS, out, done, outcomes)
    requires Advances(lib, errs, anyGRPC, anyTLS, errs', anyGRPC', anyTLS', outcomes(sig))
    requires out' == if outcomes(sig).Ok? then out[sig := outcomes(sig).value] else out
    ensures Progress(lib, errs', anyGRPC', anyTLS', out', done + [sig], outcomes)
  {
    FaultsStep(lib, done, sig, outcomes);
    AnyStep(done, sig, outcomes);
  }

  /** With every signal collected, the map is as large as the list just when the global rules apply. */
  lemma CollectedAll(out: map<Signal, ExporterConfig>, signals: seq<Signal>, outcomes: Outcomes)
    requires forall sig :: sig in out <==> sig in signals && outcomes(sig).Ok?
    ensures |out| == |signals| <==> DistinctSignals(signals) && Faultless(signals, outcomes)
  {
    SetOfSignals(signals);
    var all := set sig | sig in signals;
    var keys := out.Keys;
    assert |out| == |keys|;
    if Faultless(signals, outcomes) {
      assert keys == all;
    } else {
      var sig :| sig in signals && outcomes(sig).Err?;
      Subset(keys, all - {sig});
    }
  }

  lemma {:induction false} Subset(a: set<Signal>, b: set<Signal>)
    requires a <= b
    ensures |a| <= |b|
  {
    if a != {} {
      var x :| x in a;
      Subset(a - {x}, b - {x});
    }
  }

  /** Each signal's outcome is what its fields come to, and a failure names a fault. */
  ghost predicate Describes(env: Env, outcomes: Outcomes) {
    && (forall sig {:trigger ReadFields(env, sig)} :: outcomes(sig) == Outcome(env.lib, ReadFields(env, sig), sig))
    && Proper(outcomes)
  }

  ghost predicate Proper(outcomes: Outcomes) {
    forall sig :: outcomes(sig).Err? ==> outcomes(sig).error != []
  }

  lemma OutcomesDescribed(env: Env)
    ensures Describes(env, OutcomesIn(env))
  {
    forall sig ensures OutcomesIn(env)(sig).Err? ==> OutcomesIn(env)(sig).error != [] {
      WellFormedIff(env.lib, ReadFields(env, sig));
    }
  }

  lemma {:induction false} FaultlessIff(signals: seq<Signal>, outcomes: Outcomes)
    requires Proper(outcomes)
    ensures AllFaults(signals, outcomes) == [] <==> Faultless(signals, outcomes)
  {
    if signals != [] {
      var n := |signals| - 1;
      FaultlessIff(signals[..n], outcomes);
      assert signals == signals[..n] + [signals[n]];
    }
  }

  lemma {:induction false} ReportsGrow(lib: Library, errs: seq<Fault>, fs: seq<Fault>)
    ensures |ReportAll(lib, errs, fs)| >= |errs|
    decreases |fs|
  {
    if fs != [] {
      ReportsGrow(lib, Report(lib, errs, fs[0]), fs[1..]);
    }
  }

  lemma NothingReported(lib: Library, fs: seq<Fault>)
    ensures ReportAll(lib, [], fs) == [] <==> fs == []
  {
    if fs != [] {
      assert Report(lib, [], fs[0]) == [fs[0]];
      ReportsGrow(lib, [fs[0]], fs[1..]);
    }
  }

  /** The signal's variables read, and `resolver.signal` run on them. */
  method ResolveOne(r: Resolver, sig: Signal, ghost outcomes: Outcomes) returns (cfg: Option<ExporterConfig>)
    requires r.Valid() && Describes(r.env, outcomes)
    modifies r
    ensures r.Valid()
    ensures Advances(r.env.lib, old(r.errs), old(r.anyGRPC), old(r.anyTLS), r.errs, r.anyGRPC, r.anyTLS, outcomes(sig))
    ensures cfg == if outcomes(sig).Ok? then Some(outcomes(sig).value) else None
  {
    var fields := ReadFields(r.env, sig);
    cfg := r.ResolveSignal(fields, sig);
  }

  method FailUnused(r: Resolver, ghost before: seq<Fault>, fault: Fault)
    requires r.Valid() && r.errs == ReportAll(r.env.lib, [], before)
    modifies r`errs, r`seen, r`faulted
    ensures r.Valid() && r.errs == ReportAll(r.env.lib, [], before + [fault])
  {
    r.Fail(fault);
    ReportAllAppend(r.env.lib, [], before, [fault]);
  }

  /** One base TLS file after another, none of which any upstream uses. */
  method CheckUnusedFiles(r: Resolver, rows: seq<Setting>, ghost before: seq<Fault>)
    requires r.Valid() && r.errs == ReportAll(r.env.lib, [], before)
    modifies r`errs, r`seen, r`faulted
    ensures r.errs == ReportAll(r.env.lib, [], before + UnusedFiles(r.env, rows))
  {
    assert rows[..0] == [] && before + [] == before;
    for i := 0 to |rows|
      invariant r.Valid() && r.errs == ReportAll(r.env.lib, [], before + UnusedFiles(r.env, rows[..i]))
    {
      var row := rows[i];
      ghost var so := before + UnusedFiles(r.env, rows[..i]);
      assert rows[..i + 1][..i] == rows[..i] && rows[..i + 1][i] == row;
      if row.tlsFile && IsSet(r.env, row.BaseName()) {
        FailUnused(r, so, FileUnused(row.BaseName()));
        assert so + [FileUnused(row.BaseName())] == before + UnusedFiles(r.env, rows[..i + 1]);
      } else {
        assert so == before + UnusedFiles(r.env, rows[..i + 1]);
      }
    }
    assert rows[..|rows|] == rows;
  }

  method CheckUnusedInsecure(r: Resolver, ghost before: seq<Fault>)
    requires r.Valid() && r.errs == ReportAll(r.env.lib, [], before)
    modifies r`errs, r`seen, r`faulted
    ensures r.Valid() && r.errs == ReportAll(r.env.lib, [], before + UnusedInsecure(r.env, r.anyGRPC))
  {
    if !r.anyGRPC && BaseInsecure(r.env) {
      FailUnused(r, before, InsecureUnused(INSECURE.BaseName()));
    } else {
      assert before + [] == before;
    }
  }

  /** The tail of `Resolve`: base variables that can apply to nothing. */
  method CheckAcrossSignals(r: Resolver, ghost before: seq<Fault>, rows: seq<Setting>)
    requires r.Valid() && r.errs == ReportAll(r.env.lib, [], before)
    modifies r`errs, r`seen, r`faulted
    ensures r.errs == ReportAll(r.env.lib, [], before + Unused(r.env, rows, r.anyGRPC, r.anyTLS))
  {
    CheckUnusedInsecure(r, before);
    ghost var insecure, files := UnusedInsecure(r.env, r.anyGRPC), UnusedFiles(r.env, rows);
    if !r.anyTLS {
      CheckUnusedFiles(r, rows, before + insecure);
      assert before + insecure + files == before + (insecure + files);
    } else {
      assert insecure + [] == insecure;
    }
  }

  lemma ErrorsOrMap(env: Env, signals: seq<Signal>, outcomes: Outcomes, errs: seq<Fault>,
                    out: map<Signal, ExporterConfig>)
    requires Proper(outcomes) && errs == Errors(env, signals, outcomes)
    requires forall sig :: sig in out <==> sig in signals && outcomes(sig).Ok?
    requires forall sig :: sig in out ==> out[sig] == outcomes(sig).value
    ensures Combined(env, signals, outcomes) == if errs != [] then Err(errs) else Ok(out)
  {
    if errs == [] {
      NothingReported(env.lib, AllFaults(signals, outcomes) + GlobalFaults(env, signals, outcomes));
      FaultlessIff(signals, outcomes);
      assert out == map sig | sig in signals && outcomes(sig).Ok? :: outcomes(sig).value;
    }
  }

  /** One round of the loop of `Resolve`. */
  method ResolveNext(r: Resolver, done: seq<Signal>, sig: Signal, out: map<Signal, ExporterConfig>,
                     ghost outcomes: Outcomes)
    returns (out': map<Signal, ExporterConfig>)
    requires r.Valid() && Describes(r.env, outcomes)
    requires Progress(r.env.lib, r.errs, r.anyGRPC, r.anyTLS, out, done, outcomes)
    modifies r
    ensures r.Valid() && Progress(r.env.lib, r.errs, r.anyGRPC, r.anyTLS, out', done + [sig], outcomes)
  {
    ghost var errs, anyGRPC, anyTLS := r.errs, r.anyGRPC, r.anyTLS;
    var cfg := ResolveOne(r, sig, outcomes);
    out' := if cfg.Some? then out[sig := cfg.value] else out;
    ProgressStep(r.env.lib, errs, anyGRPC, anyTLS, out, r.errs, r.anyGRPC, r.anyTLS, out', done, sig, outcomes);
  }

  /** The loop of `Resolve`. `outcomes` is, for the proof, what each signal comes to. */
  method ResolveEach(r: Resolver, signals: seq<Signal>, ghost outcomes: Outcomes)
    returns (out: map<Signal, ExporterConfig>)
    requires r.Valid() && r.errs == [] && !r.anyGRPC && !r.anyTLS && Describes(r.env, outcomes)
    modifies r
    ensures r.Valid() && Progress(r.env.lib, r.errs, r.anyGRPC, r.anyTLS, out, signals, outcomes)
  {
    out := map[];
    for i := 0 to |signals|
      invariant r.Valid()
      invariant Progress(r.env.lib, r.errs, r.anyGRPC, r.anyTLS, out, signals[..i], outcomes)
    {
      out := ResolveNext(r, signals[..i], signals[i], out, outcomes);
      assert signals[..i + 1] == signals[..i] + [signals[i]];
    }
    assert signals[..|signals|] == signals;
  }

  /** `Resolve`. */
  method ResolveAll(env: Env, signals: seq<Signal>) returns (result: Result<map<Signal, ExporterConfig>, seq<Fault>>)
    ensures result == Resolved(env, signals)
  {
    OutcomesDescribed(env);
    var r := new Resolver(env);
    result := ResolveWith(r, signals, OutcomesIn(env));
  }

  method ResolveWith(r: Resolver, signals: seq<Signal>, ghost outcomes: Outcomes)
    returns (result: Result<map<Signal, ExporterConfig>, seq<Fault>>)
    requires r.Valid() && r.errs == [] && !r.anyGRPC && !r.anyTLS && Describes(r.env, outcomes)
    modifies r
    ensures result == Combined(r.env, signals, outcomes)
  {
    var out := ResolveEach(r, signals, outcomes);
    CollectedAll(out, signals, outcomes);
    ghost var faults := AllFaults(signals, outcomes);
    if |out| == |signals| {
      CheckAcrossSignals(r, faults, SETTINGS);
    } else {
      assert faults + [] == faults;
    }
    ErrorsOrMap(r.env, signals, outcomes, r.errs, out);
    return if r.errs != [] then Err(r.errs) else Ok(out);
  }
}
