/** What holds of every resolution, whatever the environment. */
module ResolveTheorems {
  import opened Wrappers
  import opened Text
  import opened Upstream
  import opened Resolve

  // ----------------------------------------------------- success and failure

  lemma CombinedSucceedsIff(env: Env, signals: seq<Signal>, outcomes: Outcomes)
    requires Proper(outcomes)
    ensures Combined(env, signals, outcomes).Ok? <==>
            Faultless(signals, outcomes) && GlobalFaults(env, signals, outcomes) == []
    ensures Combined(env, signals, outcomes).Ok? ==>
              var m := Combined(env, signals, outcomes).value;
              && m.Keys == (set sig | sig in signals)
              && forall sig :: sig in signals ==> Ok(m[sig]) == outcomes(sig)
  {
    NothingReported(env.lib, AllFaults(signals, outcomes) + GlobalFaults(env, signals, outcomes));
    FaultlessIff(signals, outcomes);
  }

  /**
   Resolution succeeds exactly when no signal has a fault and no global rule is broken;
   the map then has exactly the requested signals, each with its own outcome.
   */
  lemma SucceedsIff(env: Env, signals: seq<Signal>)
    ensures Resolved(env, signals).Ok? <==>
            Faultless(signals, OutcomesIn(env)) && GlobalFaults(env, signals, OutcomesIn(env)) == []
    ensures Resolved(env, signals).Ok? ==>
              var m := Resolved(env, signals).value;
              && m.Keys == (set sig | sig in signals)
              && forall sig :: sig in signals ==> Ok(m[sig]) == OutcomesIn(env)(sig)
  {
    OutcomesDescribed(env);
    CombinedSucceedsIff(env, signals, OutcomesIn(env));
  }

  lemma {:induction false} AllFaultsMember(signals: seq<Signal>, outcomes: Outcomes, f: Fault)
    ensures f in AllFaults(signals, outcomes) <==> exists sig :: sig in signals && f in FaultsIn(outcomes(sig))
  {
    if signals != [] {
      var n := |signals| - 1;
      AllFaultsMember(signals[..n], outcomes, f);
      assert signals == signals[..n] + [signals[n]];
    }
  }

  /** A text some signal's faults, or a broken global rule, call for. */
  ghost predicate Called(env: Env, signals: seq<Signal>, outcomes: Outcomes, text: Bytes) {
    || (exists sig :: sig in signals && text in Texts(env.lib, FaultsIn(outcomes(sig))))
    || text in Texts(env.lib, GlobalFaults(env, signals, outcomes))
  }

  /** On failure no text is repeated, and the texts are those the faults call for: none missing, none added. */
  lemma FailureIsExact(env: Env, signals: seq<Signal>, outcomes: Outcomes)
    requires Combined(env, signals, outcomes).Err?
    ensures var errs := Combined(env, signals, outcomes).error;
            NoRepeats(env.lib, errs)
            && forall text :: text in Texts(env.lib, errs) <==> Called(env, signals, outcomes, text)
  {
    var all, global := AllFaults(signals, outcomes), GlobalFaults(env, signals, outcomes);
    ReportAllTexts(env.lib, [], all + global);
    forall text ensures text in Texts(env.lib, all + global) <==> Called(env, signals, outcomes, text) {
      if text in Texts(env.lib, all + global) {
        var f :| f in all + global && env.lib.text(f) == text;
        AllFaultsMember(signals, outcomes, f);
      }
      if sig :| sig in signals && text in Texts(env.lib, FaultsIn(outcomes(sig))) {
        var f :| f in FaultsIn(outcomes(sig)) && env.lib.text(f) == text;
        AllFaultsMember(signals, outcomes, f);
        assert f in all + global;
      }
      if text in Texts(env.lib, global) {
        var f :| f in global && env.lib.text(f) == text;
        assert f in all + global;
      }
    }
  }

  // ------------------------------------------------------------- invariants

  /** What the exporter is entitled to find in a configuration. */
  ghost predicate Sound(cfg: ExporterConfig) {
    && (cfg.plaintext ==> cfg.caFile == [] && cfg.clientCertFile == [] && cfg.clientKeyFile == [] && !cfg.skipVerify)
    && (cfg.clientCertFile == [] <==> cfg.clientKeyFile == [])
    && 0 < cfg.retryInitialInterval <= cfg.retryMaxInterval
    && cfg.retryMaxElapsed >= 0
    && (cfg.retryMaxElapsed > 0 ==> cfg.retryMaxInterval <= cfg.retryMaxElapsed)
    && MILLISECOND <= cfg.timeout <= MAX_TIMEOUT_MS * MILLISECOND
    && cfg.queueSize >= 1
    && (cfg.signalPath ==> cfg.protocol.HTTPProtobuf?)
  }

  /** The fields hold what the parsers can yield. */
  ghost predicate Parsed(env: Env, sig: Signal, f: Fields) {
    && (f.timeout.parsed.Ok? ==> MILLISECOND <= f.timeout.parsed.value <= MAX_TIMEOUT_MS * MILLISECOND)
    && (f.queueSize.parsed.Ok? ==> f.queueSize.parsed.value >= 1)
    && (f.retry.parsed.Ok? ==> f.retry.parsed.value >= 0)
    && (f.protocol.parsed.Ok? && f.target.Ok? && f.target.value.signalPath ==>
          f.protocol.parsed.value.HTTPProtobuf? && !f.endpoint.perSignal && f.target.value.endpoint == f.endpoint.raw)
    && f.endpoint == Value(env, ENDPOINT, sig)
    && (f.protocol.parsed.Ok? && f.target.Ok? && f.protocol.parsed.value.HTTPProtobuf? ==>
          f.target.value.endpoint == f.endpoint.raw && (f.target.value.signalPath <==> !f.endpoint.perSignal))
  }

  lemma FieldsParsed(env: Env, sig: Signal)
    ensures Parsed(env, sig, ReadFields(env, sig))
  {
  }

  lemma OutcomeSound(env: Env, f: Fields, sig: Signal)
    requires Parsed(env, sig, f) && Outcome(env.lib, f, sig).Ok?
    ensures var cfg := Outcome(env.lib, f, sig).value;
            && Sound(cfg)
            && (cfg.protocol.HTTPProtobuf? ==>
                  cfg.endpoint == f.endpoint.raw && (cfg.signalPath <==> !f.endpoint.perSignal))
  {
  }

  /**
   Every configuration of a successful resolution is sound; an HTTP endpoint is as written, and
   gets a signal path exactly when it is the base variable's, the signal's own being unset.
   */
  lemma ResolvedIsSound(env: Env, signals: seq<Signal>, sig: Signal)
    requires Resolved(env, signals).Ok? && sig in signals
    ensures sig in Resolved(env, signals).value && Sound(Resolved(env, signals).value[sig])
    ensures Resolved(env, signals).value[sig].signalPath ==>
              env.lookup(ENDPOINT.BaseName()) == Some(Resolved(env, signals).value[sig].endpoint)
    ensures Resolved(env, signals).value[sig].protocol.HTTPProtobuf? ==>
              && Resolved(env, signals).value[sig].endpoint == Value(env, ENDPOINT, sig).raw
              && (Resolved(env, signals).value[sig].signalPath <==> !IsSet(env, ENDPOINT.SignalName(sig)))
  {
    SucceedsIff(env, signals);
    var f := ReadFields(env, sig);
    FieldsParsed(env, sig);
    assert OutcomesIn(env)(sig) == Outcome(env.lib, f, sig);
    EndpointSource(env, f, sig);
  }

  lemma EndpointSource(env: Env, f: Fields, sig: Signal)
    requires Parsed(env, sig, f) && Outcome(env.lib, f, sig).Ok?
    ensures var cfg := Outcome(env.lib, f, sig).value;
            Sound(cfg)
            && (cfg.signalPath ==> env.lookup(ENDPOINT.BaseName()) == Some(cfg.endpoint))
            && (cfg.protocol.HTTPProtobuf? ==>
                  && cfg.endpoint == Value(env, ENDPOINT, sig).raw
                  && (cfg.signalPath <==> !IsSet(env, ENDPOINT.SignalName(sig))))
  {
    OutcomeSound(env, f, sig);
    assert WellFormed(f);
  }

  lemma {:induction false} UnusedFilesMember(env: Env, rows: seq<Setting>, row: Setting)
    requires row in rows && row.tlsFile && IsSet(env, row.BaseName())
    ensures UnusedFiles(env, rows) != []
  {
    var n := |rows| - 1;
    assert rows == rows[..n] + [rows[n]];
    if row != rows[n] {
      UnusedFilesMember(env, rows[..n], row);
    }
  }

  /** A base INSECURE=true finds some gRPC upstream, and a base TLS file some TLS upstream. */
  lemma BaseVariablesApply(env: Env, signals: seq<Signal>)
    requires DistinctSignals(signals) && Resolved(env, signals).Ok?
    ensures BaseInsecure(env) ==> AnyGRPC(signals, OutcomesIn(env))
    ensures forall row :: row in SETTINGS && row.tlsFile && IsSet(env, row.BaseName()) ==>
                            AnyTLS(signals, OutcomesIn(env))
  {
    SucceedsIff(env, signals);
    forall row | row in SETTINGS && row.tlsFile && IsSet(env, row.BaseName())
      ensures AnyTLS(signals, OutcomesIn(env))
    {
      UnusedFilesMember(env, SETTINGS, row);
    }
  }

  // --------------------------------------------------------------- locality

  /** What a variable means: an empty one is unset. */
  function Meaning(env: Env, name: Bytes): Option<Bytes> {
    if IsSet(env, name) then env.lookup(name) else None
  }

  ghost predicate AgreeOn(a: Env, b: Env, name: Bytes) {
    Meaning(a, name) == Meaning(b, name)
  }

  ghost predicate AgreeFor(a: Env, b: Env, sig: Signal) {
    forall s :: s in SETTINGS ==> AgreeOn(a, b, s.BaseName()) && AgreeOn(a, b, s.SignalName(sig))
  }

  lemma SameValue(a: Env, b: Env, s: Setting, sig: Signal)
    requires AgreeOn(a, b, s.BaseName()) && AgreeOn(a, b, s.SignalName(sig))
    ensures Value(a, s, sig) == Value(b, s, sig)
  {
  }

  ghost predicate SameValues(a: Env, b: Env, sig: Signal) {
    && Value(a, ENDPOINT, sig) == Value(b, ENDPOINT, sig)
    && Value(a, PROTOCOL, sig) == Value(b, PROTOCOL, sig)
    && Value(a, HEADERS, sig) == Value(b, HEADERS, sig)
    && Value(a, TIMEOUT, sig) == Value(b, TIMEOUT, sig)
    && Value(a, COMPRESSION, sig) == Value(b, COMPRESSION, sig)
    && Value(a, CERTIFICATE, sig) == Value(b, CERTIFICATE, sig)
    && Value(a, CLIENT_CERTIFICATE, sig) == Value(b, CLIENT_CERTIFICATE, sig)
    && Value(a, CLIENT_KEY, sig) == Value(b, CLIENT_KEY, sig)
    && Value(a, INSECURE, sig) == Value(b, INSECURE, sig)
    && Value(a, SKIP_VERIFY, sig) == Value(b, SKIP_VERIFY, sig)
    && Value(a, QUEUE_SIZE, sig) == Value(b, QUEUE_SIZE, sig)
    && Value(a, RETRY_MAX_ELAPSED, sig) == Value(b, RETRY_MAX_ELAPSED, sig)
  }

  lemma AgreementGivesValues(a: Env, b: Env, sig: Signal)
    requires AgreeFor(a, b, sig)
    ensures SameValues(a, b, sig)
  {
    forall s | s in SETTINGS ensures Value(a, s, sig) == Value(b, s, sig) {
      SameValue(a, b, s, sig);
    }
    assert SETTINGS[0] == ENDPOINT && SETTINGS[1] == PROTOCOL && SETTINGS[2] == HEADERS && SETTINGS[3] == TIMEOUT
           && SETTINGS[4] == COMPRESSION && SETTINGS[5] == CERTIFICATE && SETTINGS[6] == CLIENT_CERTIFICATE
           && SETTINGS[7] == CLIENT_KEY && SETTINGS[8] == INSECURE && SETTINGS[9] == SKIP_VERIFY
           && SETTINGS[10] == QUEUE_SIZE && SETTINGS[11] == RETRY_MAX_ELAPSED;
  }

  lemma SameFields(a: Env, b: Env, sig: Signal)
    requires a.lib == b.lib && AgreeFor(a, b, sig)
    ensures ReadFields(a, sig) == ReadFields(b, sig)
  {
    AgreementGivesValues(a, b, sig);
  }

  lemma {:induction false} SameAllFaults(signals: seq<Signal>, o: Outcomes, p: Outcomes)
    requires forall sig :: sig in signals ==> o(sig) == p(sig)
    ensures AllFaults(signals, o) == AllFaults(signals, p)
  {
    if signals != [] {
      SameAllFaults(signals[..|signals| - 1], o, p);
    }
  }

  lemma {:induction false} SameUnusedFiles(a: Env, b: Env, rows: seq<Setting>)
    requires forall s :: s in rows ==> AgreeOn(a, b, s.BaseName())
    ensures UnusedFiles(a, rows) == UnusedFiles(b, rows)
  {
    if rows != [] {
      assert rows[|rows| - 1] in rows;
      SameUnusedFiles(a, b, rows[..|rows| - 1]);
    }
  }

  lemma SameBaseInsecure(a: Env, b: Env)
    requires AgreeOn(a, b, INSECURE.BaseName())
    ensures BaseInsecure(a) == BaseInsecure(b)
  {
    assert Lower([]) == [];
  }

  lemma SameCombined(a: Env, b: Env, signals: seq<Signal>, o: Outcomes, p: Outcomes)
    requires a.lib == b.lib && forall s :: s in SETTINGS ==> AgreeOn(a, b, s.BaseName())
    requires forall sig :: sig in signals ==> o(sig) == p(sig)
    ensures Combined(a, signals, o) == Combined(b, signals, p)
  {
    SameAllFaults(signals, o, p);
    SameUnusedFiles(a, b, SETTINGS);
    assert SETTINGS[8] == INSECURE;
    SameBaseInsecure(a, b);
    assert (map sig | sig in signals && o(sig).Ok? :: o(sig).value) ==
           (map sig | sig in signals && p(sig).Ok? :: p(sig).value);
  }

  /**
   Resolution is local: environments that agree, empty counting as unset, on the base names
   and on the requested signals' own names give the same result. Another signal's variables
   cannot change it.
   */
  lemma ResolutionIsLocal(a: Env, b: Env, signals: seq<Signal>)
    requires a.lib == b.lib && (forall s :: s in SETTINGS ==> AgreeOn(a, b, s.BaseName()))
    requires forall sig :: sig in signals ==> AgreeFor(a, b, sig)
    ensures Resolved(a, signals) == Resolved(b, signals)
  {
    forall sig | sig in signals ensures OutcomesIn(a)(sig) == OutcomesIn(b)(sig) {
      SameFields(a, b, sig);
    }
    SameCombined(a, b, signals, OutcomesIn(a), OutcomesIn(b));
  }

  ghost predicate Listed(names: seq<Bytes>, s: Setting) {
    s.BaseName() in names && forall sig: Signal :: s.SignalName(sig) in names
  }

  ghost predicate NamedBy(s: Setting, sig: Signal, name: Bytes) {
    name == s.BaseName() || name == s.SignalName(sig)
  }

  ghost predicate RowName(s: Setting, name: Bytes) {
    exists sig :: NamedBy(s, sig, name)
  }

  ghost predicate IsName(rows: seq<Setting>, name: Bytes) {
    exists s :: s in rows && RowName(s, name)
  }

  /** `Names`, of the table SETTINGS: every variable a resolution may read, and no other. */
  method Names(rows: seq<Setting>) returns (names: seq<Bytes>)
    ensures forall s :: s in rows ==> Listed(names, s)
    ensures forall name :: name in names ==> IsName(rows, name)
  {
    names := [];
    for i := 0 to |rows|
      invariant forall j :: 0 <= j < i ==> Listed(names, rows[j])
      invariant forall name :: name in names ==> IsName(rows, name)
    {
      var own := NamesOf(rows[i]);
      ghost var before := names;
      names := names + own;
      assert forall name :: name in before ==> name in names;
      assert Listed(names, rows[i]);
    }
  }

  /** One row's names: the base one, then one per signal if it has them. */
  method NamesOf(s: Setting) returns (names: seq<Bytes>)
    ensures Listed(names, s)
    ensures forall name :: name in names ==> RowName(s, name)
  {
    names := [s.BaseName()];
    assert NamedBy(s, Traces, s.BaseName());
    if s.perSignal {
      for k := 0 to |SIGNALS|
        invariant s.BaseName() in names
        invariant forall m :: 0 <= m < k ==> s.SignalName(SIGNALS[m]) in names
        invariant forall name :: name in names ==> RowName(s, name)
      {
        assert NamedBy(s, SIGNALS[k], s.SignalName(SIGNALS[k]));
        names := names + [s.SignalName(SIGNALS[k])];
      }
      assert SIGNALS[0] == Traces && SIGNALS[1] == Logs && SIGNALS[2] == Metrics;
      forall sig: Signal ensures s.SignalName(sig) in names {
        assert sig == SIGNALS[0] || sig == SIGNALS[1] || sig == SIGNALS[2];
      }
    } else {
      assert s.BaseName() == s.SignalName(Traces);
    }
  }

  // ----------------------------------------------------------------- order

  lemma SameSignalsSameGlobals(env: Env, a: seq<Signal>, b: seq<Signal>, outcomes: Outcomes)
    requires DistinctSignals(a) && DistinctSignals(b) && forall sig :: sig in a <==> sig in b
    ensures GlobalFaults(env, a, outcomes) == GlobalFaults(env, b, outcomes)
    ensures Faultless(a, outcomes) == Faultless(b, outcomes)
  {
  }

  lemma CombinedInAnyOrder(env: Env, a: seq<Signal>, b: seq<Signal>, outcomes: Outcomes)
    requires Proper(outcomes)
    requires DistinctSignals(a) && DistinctSignals(b) && forall sig :: sig in a <==> sig in b
    ensures var (x, y) := (Combined(env, a, outcomes), Combined(env, b, outcomes));
            && (x.Ok? <==> y.Ok?)
            && (x.Ok? && y.Ok? ==> x == y)
            && (x.Err? && y.Err? ==> Texts(env.lib, x.error) == Texts(env.lib, y.error))
  {
    SameSignalsSameGlobals(env, a, b, outcomes);
    CombinedSucceedsIff(env, a, outcomes);
    CombinedSucceedsIff(env, b, outcomes);
    if Combined(env, a, outcomes).Err? && Combined(env, b, outcomes).Err? {
      FailureIsExact(env, a, outcomes);
      FailureIsExact(env, b, outcomes);
      forall text ensures Called(env, a, outcomes, text) <==> Called(env, b, outcomes, text) {
      }
    } else if Combined(env, a, outcomes).Ok? {
      assert Combined(env, a, outcomes).value == Combined(env, b, outcomes).value;
    }
  }

  /** Permuting the signals changes neither success, nor the map, nor which errors are reported. */
  lemma OrderDoesNotMatter(env: Env, a: seq<Signal>, b: seq<Signal>)
    requires DistinctSignals(a) && DistinctSignals(b) && forall sig :: sig in a <==> sig in b
    ensures var (x, y) := (Resolved(env, a), Resolved(env, b));
            && (x.Ok? <==> y.Ok?)
            && (x.Ok? && y.Ok? ==> x == y)
            && (x.Err? && y.Err? ==> Texts(env.lib, x.error) == Texts(env.lib, y.error))
  {
    OutcomesDescribed(env);
    CombinedInAnyOrder(env, a, b, OutcomesIn(env));
  }
}
