/** One exporter per distinct configuration: the grouping of signals, and its component ids. */
module Exporters {
  import opened Wrappers
  import opened Text
  import opened Headers
  import opened Upstream
  import opened Resolve
  import ResolveTheorems

  type Configs = map<Signal, ExporterConfig>

  datatype Group = Group(config: ExporterConfig, signals: seq<Signal>)

  datatype Endpoint = Endpoint(key: Bytes, value: Bytes)

  datatype Exporter = Exporter(id: Bytes, config: ExporterConfig, endpoints: seq<Endpoint>, headers: seq<Header>,
                               signals: seq<Signal>)

  function SignalText(sig: Signal): Bytes {
    match sig
    case Traces => "traces"
    case Logs => "logs"
    case Metrics => "metrics"
  }

  function ComponentType(p: Protocol): Bytes {
    if p.GRPC? then "otlp_grpc" else "otlp_http"
  }

  function SignalTexts(sigs: seq<Signal>): seq<Bytes> {
    if sigs == [] then [] else [SignalText(sigs[0])] + SignalTexts(sigs[1..])
  }

  /** The id names the signals served unless the exporter serves them all. */
  function ComponentId(g: Group, total: nat): Bytes {
    ComponentType(g.config.protocol)
    + if |g.signals| < total then ['/'] + Join(SignalTexts(g.signals), '_') else []
  }

  function SignalEndpoints(value: Bytes, sigs: seq<Signal>): seq<Endpoint> {
    if sigs == [] then []
    else [Endpoint(SignalText(sigs[0]) + "_endpoint", value)] + SignalEndpoints(value, sigs[1..])
  }

  /** A per-signal HTTP URL is set under each signal's own key, so it is used verbatim. */
  function Endpoints(cfg: ExporterConfig, sigs: seq<Signal>): seq<Endpoint> {
    if cfg.protocol.GRPC? || cfg.signalPath then [Endpoint("endpoint", cfg.endpoint)]
    else SignalEndpoints(cfg.endpoint, sigs)
  }

  function Rendered(g: Group, total: nat): Exporter {
    Exporter(ComponentId(g, total), g.config, Endpoints(g.config, g.signals), Pairs(g.config.headers), g.signals)
  }

  // --------------------------------------------------------------- grouping

  /** The position of the group with that configuration, or the length. */
  function GroupOf(groups: seq<Group>, cfg: ExporterConfig): (i: nat)
    ensures i <= |groups|
    ensures i < |groups| ==> groups[i].config == cfg
    ensures forall j :: 0 <= j < i ==> groups[j].config != cfg
  {
    if groups == [] || groups[0].config == cfg then 0 else 1 + GroupOf(groups[1..], cfg)
  }

  function Joined(groups: seq<Group>, cfg: ExporterConfig, sig: Signal): seq<Group> {
    var i := GroupOf(groups, cfg);
    if i < |groups| then groups[i := Group(cfg, groups[i].signals + [sig])] else groups + [Group(cfg, [sig])]
  }

  /** The resolved ones of the signals, grouped by configuration in the order they come. */
  function Groups(configs: Configs, sigs: seq<Signal>): seq<Group> {
    if sigs == [] then []
    else
      var last := sigs[|sigs| - 1];
      var rest := Groups(configs, sigs[..|sigs| - 1]);
      if last in configs then Joined(rest, configs[last], last) else rest
  }

  /** Every resolved signal is in exactly one group, that of its own configuration. */
  ghost predicate Partition(groups: seq<Group>, configs: Configs, sigs: seq<Signal>) {
    && (forall i, j :: 0 <= i < j < |groups| ==> groups[i].config != groups[j].config)
    && (forall i :: 0 <= i < |groups| ==> GroupSound(groups[i], configs, sigs))
    && (forall sig :: sig in sigs && sig in configs ==> Served(groups, sig))
  }

  ghost predicate GroupSound(g: Group, configs: Configs, sigs: seq<Signal>) {
    && g.signals != [] && DistinctSignals(g.signals)
    && forall sig :: sig in g.signals ==> sig in sigs && sig in configs && configs[sig] == g.config
  }

  ghost predicate Served(groups: seq<Group>, sig: Signal) {
    exists i :: 0 <= i < |groups| && sig in groups[i].signals
  }

  lemma JoinedPartition(groups: seq<Group>, configs: Configs, sigs: seq<Signal>, sig: Signal)
    requires Partition(groups, configs, sigs) && sig !in sigs && sig in configs
    ensures Partition(Joined(groups, configs[sig], sig), configs, sigs + [sig])
  {
    var cfg := configs[sig];
    var k, after := GroupOf(groups, cfg), Joined(groups, cfg, sig);
    assert after[k].signals == if k < |groups| then groups[k].signals + [sig] else [sig];
    forall i | 0 <= i < |after| ensures GroupSound(after[i], configs, sigs + [sig]) {
      if i < |groups| {
        assert GroupSound(groups[i], configs, sigs);
      }
    }
    forall s | s in sigs + [sig] && s in configs ensures Served(after, s) {
      if s in sigs {
        assert Served(groups, s);
        var i :| 0 <= i < |groups| && s in groups[i].signals;
        assert s in after[i].signals;
      } else {
        assert sig in after[k].signals;
      }
    }
  }

  lemma {:induction false} GroupsPartition(configs: Configs, sigs: seq<Signal>)
    requires DistinctSignals(sigs)
    ensures Partition(Groups(configs, sigs), configs, sigs)
  {
    if sigs != [] {
      var n := |sigs| - 1;
      var front, last := sigs[..n], sigs[n];
      assert sigs == front + [last];
      GroupsPartition(configs, front);
      if last in configs {
        JoinedPartition(Groups(configs, front), configs, front, last);
      } else {
        forall i | 0 <= i < |Groups(configs, front)| ensures GroupSound(Groups(configs, front)[i], configs, sigs) {
          assert GroupSound(Groups(configs, front)[i], configs, front);
        }
      }
    }
  }

  /** Two signals are in one group exactly when their configurations are equal. */
  lemma TogetherIffEqual(groups: seq<Group>, configs: Configs, sigs: seq<Signal>, a: Signal, b: Signal, i: nat, j: nat)
    requires Partition(groups, configs, sigs) && i < |groups| && j < |groups|
    requires a in groups[i].signals && b in groups[j].signals
    ensures a in configs && b in configs && (i == j <==> configs[a] == configs[b])
  {
    assert GroupSound(groups[i], configs, sigs) && GroupSound(groups[j], configs, sigs);
  }

  // -------------------------------------------------------------------- ids

  lemma SetOfAll(g: Group, configs: Configs, sigs: seq<Signal>)
    requires GroupSound(g, configs, sigs) && |g.signals| >= |configs|
    ensures forall sig :: sig in configs ==> sig in g.signals
  {
    var served := set sig | sig in g.signals;
    SetOfSignals(g.signals);
    assert |configs.Keys| == |configs|;
    forall sig | sig in configs ensures sig in g.signals {
      if sig !in g.signals {
        Subset(served, configs.Keys - {sig});
      }
    }
  }

  lemma JoinFirst(sigs: seq<Signal>)
    requires sigs != []
    ensures var text := Join(SignalTexts(sigs), '_');
            text != [] && text[0] == SignalText(sigs[0])[0]
  {
  }

  lemma IdLetters(g: Group, total: nat)
    requires g.signals != []
    ensures var id := ComponentId(g, total);
            && |id| >= 9 && id[5] == (if g.config.protocol.GRPC? then 'g' else 'h')
            && (|g.signals| < total ==> |id| > 10 && id[10] == SignalText(g.signals[0])[0])
  {
    JoinFirst(g.signals);
    var kind := ComponentType(g.config.protocol);
    assert |kind| == 9 && kind[5] == if g.config.protocol.GRPC? then 'g' else 'h';
    if |g.signals| < total {
      var rest := ['/'] + Join(SignalTexts(g.signals), '_');
      assert rest[1] == SignalText(g.signals[0])[0];
      assert ComponentId(g, total) == kind + rest;
    }
  }

  lemma SignalLetters(a: Signal, b: Signal)
    ensures SignalText(a)[0] == SignalText(b)[0] ==> a == b
  {
  }

  /** Component ids never collide. */
  lemma IdsDiffer(groups: seq<Group>, configs: Configs, sigs: seq<Signal>, i: nat, j: nat)
    requires Partition(groups, configs, sigs) && i < j < |groups|
    ensures ComponentId(groups[i], |configs|) != ComponentId(groups[j], |configs|)
  {
    var (a, b) := (groups[i], groups[j]);
    assert GroupSound(a, configs, sigs) && GroupSound(b, configs, sigs);
    assert a.signals[0] in a.signals && b.signals[0] in b.signals;
    if |a.signals| >= |configs| {
      SetOfAll(a, configs, sigs);
    }
    if |b.signals| >= |configs| {
      SetOfAll(b, configs, sigs);
    }
    IdLetters(a, |configs|);
    IdLetters(b, |configs|);
    SignalLetters(a.signals[0], b.signals[0]);
  }

  // ---------------------------------------------------------------- methods

  function RenderedAll(groups: seq<Group>, total: nat): (out: seq<Exporter>)
    ensures |out| == |groups| && forall i :: 0 <= i < |out| ==> out[i] == Rendered(groups[i], total)
  {
    seq(|groups|, i requires 0 <= i < |groups| => Rendered(groups[i], total))
  }

  function AllOf(configs: Configs): seq<Exporter> {
    RenderedAll(Groups(configs, SIGNALS), |configs|)
  }

  /** The grouping loop: first-seen configurations in order, and the signals of each. */
  method GroupSignals(configs: Configs, sigs: seq<Signal>)
    returns (order: seq<ExporterConfig>, bySignals: map<ExporterConfig, seq<Signal>>)
    requires DistinctSignals(sigs)
    ensures Mirrors(order, bySignals, Groups(configs, sigs))
  {
    order, bySignals := [], map[];
    for i := 0 to |sigs|
      invariant Mirrors(order, bySignals, Groups(configs, sigs[..i]))
    {
      var sig := sigs[i];
      assert sigs[..i + 1][..i] == sigs[..i];
      ghost var groups := Groups(configs, sigs[..i]);
      if sig in configs {
        var cfg := configs[sig];
        ghost var order0, bySignals0 := order, bySignals;
        if cfg !in bySignals {
          order := order + [cfg];
          bySignals := bySignals[cfg := [sig]];
        } else {
          bySignals := bySignals[cfg := bySignals[cfg] + [sig]];
        }
        MirrorsJoined(order0, bySignals0, groups, cfg, sig);
      }
    }
    assert sigs[..|sigs|] == sigs;
  }

  /** The slice and the map hold the groups. */
  ghost predicate Mirrors(order: seq<ExporterConfig>, bySignals: map<ExporterConfig, seq<Signal>>, groups: seq<Group>) {
    && |order| == |groups|
    && (forall i :: 0 <= i < |groups| ==>
          order[i] == groups[i].config && order[i] in bySignals && bySignals[order[i]] == groups[i].signals)
    && (forall cfg :: cfg in bySignals ==> cfg in order)
    && (forall i, j :: 0 <= i < j < |groups| ==> groups[i].config != groups[j].config)
  }

  lemma MirrorsFinds(order: seq<ExporterConfig>, bySignals: map<ExporterConfig, seq<Signal>>, groups: seq<Group>,
                     cfg: ExporterConfig)
    requires Mirrors(order, bySignals, groups)
    ensures cfg in bySignals <==> GroupOf(groups, cfg) < |groups|
  {
    if cfg in bySignals {
      var i :| 0 <= i < |order| && order[i] == cfg;
      assert groups[i].config == cfg;
    }
  }

  lemma MirrorsJoined(order: seq<ExporterConfig>, bySignals: map<ExporterConfig, seq<Signal>>, groups: seq<Group>,
                      cfg: ExporterConfig, sig: Signal)
    requires Mirrors(order, bySignals, groups)
    ensures cfg in bySignals ==> Mirrors(order, bySignals[cfg := bySignals[cfg] + [sig]], Joined(groups, cfg, sig))
    ensures cfg !in bySignals ==> Mirrors(order + [cfg], bySignals[cfg := [sig]], Joined(groups, cfg, sig))
  {
    MirrorsFinds(order, bySignals, groups, cfg);
    var k, after := GroupOf(groups, cfg), Joined(groups, cfg, sig);
    if cfg in bySignals {
      var bySignals' := bySignals[cfg := bySignals[cfg] + [sig]];
      forall i | 0 <= i < |after|
        ensures order[i] == after[i].config && order[i] in bySignals' && bySignals'[order[i]] == after[i].signals
      {
        if i != k {
          assert groups[i].config != groups[k].config;
        }
      }
    } else {
      forall i | 0 <= i < |groups| ensures order[i] != cfg {
        assert order[i] in bySignals;
      }
    }
  }

  /** `UpstreamSettings.all`. */
  method All(configs: Configs) returns (out: seq<Exporter>)
    ensures out == AllOf(configs)
    ensures forall i, j :: 0 <= i < j < |out| ==> out[i].id != out[j].id && out[i].config != out[j].config
    ensures forall sig :: sig in configs <==> exists i :: 0 <= i < |out| && sig in out[i].signals
    ensures forall i, sig :: 0 <= i < |out| && sig in out[i].signals ==> out[i].config == configs[sig]
  {
    var order, bySignals := GroupSignals(configs, SIGNALS);
    out := RenderEach(order, bySignals, Groups(configs, SIGNALS), |configs|);
    AllPartition(configs, out);
  }

  /** The second loop of `all`: an exporter for each configuration. */
  method RenderEach(order: seq<ExporterConfig>, bySignals: map<ExporterConfig, seq<Signal>>, ghost groups: seq<Group>,
                    total: nat)
    returns (out: seq<Exporter>)
    requires |order| == |groups| && forall i :: 0 <= i < |order| ==> order[i] in bySignals
    requires forall i :: 0 <= i < |groups| ==> groups[i] == Group(order[i], bySignals[order[i]])
    ensures |out| == |groups| && forall i :: 0 <= i < |out| ==> out[i] == Rendered(groups[i], total)
  {
    out := [];
    for i := 0 to |order|
      invariant |out| == i && forall j :: 0 <= j < i ==> out[j] == Rendered(groups[j], total)
    {
      out := out + [Rendered(Group(order[i], bySignals[order[i]]), total)];
    }
  }

  lemma AllPartition(configs: Configs, out: seq<Exporter>)
    requires |out| == |Groups(configs, SIGNALS)|
    requires forall i :: 0 <= i < |out| ==> out[i] == Rendered(Groups(configs, SIGNALS)[i], |configs|)
    ensures out == AllOf(configs)
    ensures forall i, j :: 0 <= i < j < |out| ==> out[i].id != out[j].id && out[i].config != out[j].config
    ensures forall sig :: sig in configs <==> exists i :: 0 <= i < |out| && sig in out[i].signals
    ensures forall i, sig :: 0 <= i < |out| && sig in out[i].signals ==> out[i].config == configs[sig]
  {
    var groups := Groups(configs, SIGNALS);
    GroupsPartition(configs, SIGNALS);
    forall i, j | 0 <= i < j < |out| ensures out[i].id != out[j].id && out[i].config != out[j].config {
      IdsDiffer(groups, configs, SIGNALS, i, j);
    }
    forall sig ensures sig in configs <==> exists i :: 0 <= i < |out| && sig in out[i].signals {
      EverySignal(sig);
      if sig in configs {
        assert Served(groups, sig);
        var i :| 0 <= i < |groups| && sig in groups[i].signals;
        assert sig in out[i].signals;
      }
      if i :| 0 <= i < |out| && sig in out[i].signals {
        assert GroupSound(groups[i], configs, SIGNALS);
      }
    }
    forall i, sig | 0 <= i < |out| && sig in out[i].signals ensures out[i].config == configs[sig] {
      assert GroupSound(groups[i], configs, SIGNALS);
    }
  }

  lemma EverySignal(sig: Signal)
    ensures sig in SIGNALS
  {
    assert SIGNALS[0] == Traces && SIGNALS[1] == Logs && SIGNALS[2] == Metrics;
  }

  /** The id of an exporter that serves every signal is its type alone; any other names its signals. */
  lemma IdNamesSignals(g: Group, total: nat)
    ensures |g.signals| >= total && g.config.protocol.GRPC? ==> ComponentId(g, total) == "otlp_grpc"
    ensures |g.signals| >= total && g.config.protocol.HTTPProtobuf? ==> ComponentId(g, total) == "otlp_http"
    ensures |g.signals| < total ==>
              ComponentId(g, total) ==
              (if g.config.protocol.GRPC? then "otlp_grpc" else "otlp_http") + "/" + Join(SignalTexts(g.signals), '_')
  {
  }

  /** A signal of a configuration already grouped joins that group. */
  lemma GroupGrows(configs: Configs, cfg: ExporterConfig, sigs: seq<Signal>, sig: Signal)
    requires sig in configs && configs[sig] == cfg
    requires Groups(configs, sigs) == if sigs == [] then [] else [Group(cfg, sigs)]
    ensures Groups(configs, sigs + [sig]) == [Group(cfg, sigs + [sig])]
  {
    assert (sigs + [sig])[..|sigs|] == sigs;
    if sigs == [] {
      assert sigs + [sig] == [sig];
    }
  }

  lemma AllThree(configs: Configs)
    requires forall sig :: sig in configs
    ensures |configs| == 3
  {
    var all := {Traces, Logs, Metrics};
    forall sig | sig in configs ensures sig in all {
      EverySignal(sig);
    }
    assert configs.Keys == all;
    assert |configs| == |configs.Keys|;
  }

  /** One configuration for all signals is one exporter, with no signal in its id, for traces, logs and metrics. */
  lemma OneForAll(configs: Configs, cfg: ExporterConfig)
    requires forall sig :: sig in configs && configs[sig] == cfg
    ensures |AllOf(configs)| == 1 && AllOf(configs)[0].signals == [Traces, Logs, Metrics]
    ensures AllOf(configs)[0].id == if cfg.protocol.GRPC? then "otlp_grpc" else "otlp_http"
  {
    AllThree(configs);
    GroupGrows(configs, cfg, [], Traces);
    assert [] + [Traces] == [Traces];
    GroupGrows(configs, cfg, [Traces], Logs);
    assert [Traces] + [Logs] == [Traces, Logs];
    GroupGrows(configs, cfg, [Traces, Logs], Metrics);
    assert [Traces, Logs] + [Metrics] == SIGNALS;
  }

  // ------------------------------------------------------------ destinations

  function Under(endpoints: seq<Endpoint>, key: Bytes): Option<Bytes> {
    if endpoints == [] then None
    else if endpoints[0].key == key then Some(endpoints[0].value)
    else Under(endpoints[1..], key)
  }

  /** The OTLP path of a signal after a base URL. */
  function WithSignalPath(base: Bytes, sig: Signal): Bytes {
    base + (if base != [] && base[|base| - 1] == '/' then "v1/" else "/v1/") + SignalText(sig)
  }

  /** Where the collector's exporter sends a signal: the signal's own key as it stands, or the base with its path. */
  function Destination(e: Exporter, sig: Signal): Option<Bytes> {
    if e.config.protocol.GRPC? then Under(e.endpoints, "endpoint")
    else if Under(e.endpoints, SignalText(sig) + "_endpoint").Some? then
      Under(e.endpoints, SignalText(sig) + "_endpoint")
    else match Under(e.endpoints, "endpoint")
         case Some(base) => Some(WithSignalPath(base, sig))
         case None => None
  }

  /** Where its own configuration says the signal goes. */
  function Wanted(cfg: ExporterConfig, sig: Signal): Bytes {
    if cfg.protocol.HTTPProtobuf? && cfg.signalPath then WithSignalPath(cfg.endpoint, sig) else cfg.endpoint
  }

  lemma {:induction false} OwnEndpoint(value: Bytes, sigs: seq<Signal>, sig: Signal)
    ensures Under(SignalEndpoints(value, sigs), SignalText(sig) + "_endpoint") ==
            if sig in sigs then Some(value) else None
  {
    if sigs != [] {
      OwnEndpoint(value, sigs[1..], sig);
      KeyIsOwn(sigs[0], sig);
      assert sigs == [sigs[0]] + sigs[1..];
    }
  }

  lemma KeyIsOwn(a: Signal, b: Signal)
    ensures SignalText(a) + "_endpoint" == SignalText(b) + "_endpoint" <==> a == b
  {
    assert (SignalText(a) + "_endpoint")[0] == SignalText(a)[0];
    assert (SignalText(b) + "_endpoint")[0] == SignalText(b)[0];
  }

  lemma BaseEndpoint(value: Bytes, sig: Signal)
    ensures Under([Endpoint("endpoint", value)], "endpoint") == Some(value)
    ensures Under([Endpoint("endpoint", value)], SignalText(sig) + "_endpoint") == None
  {
    assert |SignalText(sig) + "_endpoint"| > |"endpoint"|;
  }

  /** An exporter sends a signal it serves, and of per-signal URLs no other, where its configuration says. */
  lemma RenderedDestination(g: Group, total: nat, sig: Signal)
    ensures sig in g.signals ==> Destination(Rendered(g, total), sig) == Some(Wanted(g.config, sig))
    ensures sig !in g.signals && g.config.protocol.HTTPProtobuf? && !g.config.signalPath ==>
              Under(Rendered(g, total).endpoints, SignalText(sig) + "_endpoint") == None
  {
    OwnEndpoint(g.config.endpoint, g.signals, sig);
    BaseEndpoint(g.config.endpoint, sig);
  }

  /** Every resolved signal goes where its own configuration says, with its own headers. */
  lemma SentAsConfigured(configs: Configs, i: nat, sig: Signal)
    requires i < |AllOf(configs)| && sig in AllOf(configs)[i].signals
    ensures sig in configs
    ensures Destination(AllOf(configs)[i], sig) == Some(Wanted(configs[sig], sig))
    ensures AllOf(configs)[i].headers == Pairs(configs[sig].headers)
  {
    var groups := Groups(configs, SIGNALS);
    GroupsPartition(configs, SIGNALS);
    assert GroupSound(groups[i], configs, SIGNALS);
    RenderedDestination(groups[i], |configs|, sig);
  }

  /**
   From the environment on: an OTLP/HTTP signal with an endpoint of its own goes there as
   written, one without goes to the base endpoint, with its path.
   */
  lemma SentAsTheEnvironmentSays(env: Env, signals: seq<Signal>, configs: Configs, i: nat, sig: Signal)
    requires Resolved(env, signals) == Ok(configs) && sig in signals && i < |AllOf(configs)|
    requires sig in configs && sig in AllOf(configs)[i].signals && configs[sig].protocol.HTTPProtobuf?
    ensures Destination(AllOf(configs)[i], sig) ==
            if IsSet(env, ENDPOINT.SignalName(sig)) then env.lookup(ENDPOINT.SignalName(sig))
            else Some(WithSignalPath(Value(env, ENDPOINT, sig).raw, sig))
  {
    ResolveTheorems.ResolvedIsSound(env, signals, sig);
    SentAsConfigured(configs, i, sig);
  }

  /** Exporter i is the named signal's: it serves that signal and holds its configuration. */
  ghost predicate ServesAt(all: seq<Exporter>, configs: Configs, i: nat, sig: Signal, name: Bytes) {
    && i < |all| && SignalText(sig) == name && sig in configs
    && sig in all[i].signals && all[i].config == configs[sig]
  }

  /** `ExporterFor`: the id of the exporter that holds the named signal's own configuration. */
  method ExporterFor(configs: Configs, name: Bytes) returns (id: Option<Bytes>)
    ensures id.Some? <==> exists sig :: sig in configs && SignalText(sig) == name
    ensures id.Some? ==> exists i: nat, sig :: ServesAt(AllOf(configs), configs, i, sig, name)
                                               && AllOf(configs)[i].id == id.value
  {
    var sig := ParseSignal(name);
    if sig.None? {
      return None;
    }
    forall s | SignalText(s) == name ensures s == sig.value {
      SignalLetters(s, sig.value);
    }
    var all := All(configs);
    var i := FindExporter(all, sig.value);
    if i.None? {
      return None;
    }
    assert ServesAt(all, configs, i.value, sig.value, name);
    return Some(all[i.value].id);
  }

  method FindExporter(all: seq<Exporter>, sig: Signal) returns (at: Option<nat>)
    ensures at.Some? ==> at.value < |all| && sig in all[at.value].signals
    ensures at.None? ==> forall j :: 0 <= j < |all| ==> sig !in all[j].signals
  {
    for i := 0 to |all|
      invariant forall j :: 0 <= j < i ==> sig !in all[j].signals
    {
      if sig in all[i].signals {
        return Some(i);
      }
    }
    return None;
  }

  /** `ParseSignal`. */
  method ParseSignal(name: Bytes) returns (sig: Option<Signal>)
    ensures sig.Some? ==> SignalText(sig.value) == name
    ensures sig.None? ==> forall s :: SignalText(s) != name
    ensures name == "traces" ==> sig == Some(Traces)
    ensures name == "logs" ==> sig == Some(Logs)
    ensures name == "metrics" ==> sig == Some(Metrics)
    ensures name != "traces" && name != "logs" && name != "metrics" ==> sig == None
  {
    for i := 0 to |SIGNALS|
      invariant forall j :: 0 <= j < i ==> SignalText(SIGNALS[j]) != name
    {
      if SignalText(SIGNALS[i]) == name {
        return Some(SIGNALS[i]);
      }
    }
    forall s ensures SignalText(s) != name {
      EverySignal(s);
    }
    assert SignalText(Traces) == "traces" && SignalText(Logs) == "logs" && SignalText(Metrics) == "metrics";
    return None;
  }
}
