/**
 Refusals before the pipeline, counted exactly once: the listener's error handler, the
 dispatcher and the OTLP/HTTP handler on one side, the life of an RPC on the other.
 */
module Refusals {
  import opened Wrappers
  import opened Text
  import Authenticator
  import Identity
  import Rejections
  import Token

  datatype Transport = OverHTTP | OverGRPC

  datatype Reason = BadMethod | MediaType | BodyTooLarge | Undecodable | UnknownPath | Undecompressed

  datatype Count = Count(transport: Transport, reason: Reason)

  // ------------------------------------------------------------------- HTTP

  datatype Body = Whole(decodes: bool) | TooLarge | Unreadable

  /** A request as the handlers see it; `mediaType` is the parsed Content-Type, None if it does not parse. */
  datatype Request = Request(protoMajor: int, contentType: Bytes, mediaType: Option<Bytes>, path: Bytes,
                             httpMethod: Bytes, body: Body)

  const GRPC_CONTENT_TYPE: Bytes := "application/grpc"

  predicate IsGRPC(r: Request) {
    r.protoMajor == 2 && GRPC_CONTENT_TYPE <= r.contentType
  }

  /** gRPC is HTTP/2 with a content type that starts so. */
  lemma IsGRPCIff(r: Request)
    ensures IsGRPC(r) <==>
            r.protoMajor == 2 && |r.contentType| >= 16 && r.contentType[..16] == "application/grpc"
  {
  }

  /** `lookupEncoding` finds an entry of its table. */
  predicate HasEncoding(r: Request) {
    r.mediaType == Some("application/x-protobuf") || r.mediaType == Some("application/json")
  }

  datatype Verdict = Exported | Refused(reason: Reason, status: int)

  /** The first thing wrong with a request to a registered path, and the status it is answered with. */
  function Judged(r: Request): Verdict {
    if r.httpMethod != "POST" then Refused(BadMethod, 405)
    else if !HasEncoding(r) then Refused(MediaType, 415)
    else if r.body.TooLarge? then Refused(BodyTooLarge, 413)
    else if r.body != Whole(true) then Refused(Undecodable, 400)
    else Exported
  }

  /** What is wrong with a request refused for that reason. */
  predicate Suffers(routes: set<Bytes>, r: Request, reason: Reason) {
    match reason
    case UnknownPath => r.path !in routes
    case BadMethod => r.httpMethod != "POST"
    case MediaType => r.mediaType != Some("application/x-protobuf") && r.mediaType != Some("application/json")
    case BodyTooLarge => r.body.TooLarge?
    case Undecodable => r.body == Unreadable || r.body == Whole(false)
    case Undecompressed => false
  }

  function StatusOf(reason: Reason): int {
    match reason
    case UnknownPath => 404
    case BadMethod => 405
    case MediaType => 415
    case BodyTooLarge => 413
    case Undecodable => 400
    case Undecompressed => 400
  }

  function Dispatch(routes: set<Bytes>, r: Request): (v: Verdict)
    ensures v.Exported? <==> Exportable(routes, r)
    ensures v.Refused? ==> Suffers(routes, r, v.reason) && v.status == StatusOf(v.reason)
  {
    if r.path in routes then Judged(r) else Refused(UnknownPath, 404)
  }

  /** A failure the server hands to the error handler: its text and status. */
  datatype Failure = Failure(message: Bytes, status: int)

  const NOT_READY: Bytes := "not ready"

  const UNAUTHORIZED := 401
  const UNAVAILABLE := 503

  /** Every refusal the authenticator has counted, whatever the reason. */
  function AuthRefusals(counts: map<Rejections.Reason, nat>): nat {
    Authenticator.Total(counts, Rejections.NoToken) + Authenticator.Total(counts, Rejections.InvalidToken)
    + Authenticator.Total(counts, Rejections.MissingScope) + Authenticator.Total(counts, Rejections.MissingClaim)
    + Authenticator.Total(counts, Rejections.NotReady)
  }

  /** A refusal counted under its own reason, and no other, is one more. */
  lemma OneMoreRefusal(before: map<Rejections.Reason, nat>, after: map<Rejections.Reason, nat>,
                       r: Authenticator.Refused)
    requires forall why :: Authenticator.Total(after, why) ==
                           Authenticator.Total(before, why) + if Authenticator.CountedAs(r, why) then 1 else 0
    ensures AuthRefusals(after) == AuthRefusals(before) + 1
  {
  }

  /** Of the authenticator's texts only one is the not-ready error's. */
  lemma OnlyNotReadyReadsSo(why: Authenticator.Refused, scope: Bytes)
    ensures Authenticator.ErrorText(why, scope) == NOT_READY <==> why.NotReady?
  {
    var text := Authenticator.ErrorText(why, scope);
    if !why.NotReady? {
      assert |text| >= 3 && (text[0] != 'n' || text[2] == ' ');
    }
  }

  /** The listener with its authenticator, and what it has counted. */
  class Listener {
    const routes: set<Bytes>
    const authenticator: Authenticator.Authenticator
    var refused: seq<Count>
    var exported: seq<Bytes>
    var toGRPC: nat

    constructor (routes: set<Bytes>, authenticator: Authenticator.Authenticator)
      ensures this.routes == routes && this.authenticator == authenticator
      ensures refused == [] && exported == [] && toGRPC == 0
    {
      this.routes, this.authenticator := routes, authenticator;
      refused, exported, toGRPC := [], [], 0;
    }

    /** Everything that has been done with requests so far, by the listener and by its authenticator. */
    function Accounted(): nat
      reads this, authenticator.rejections
    {
      |refused| + |exported| + toGRPC + AuthRefusals(authenticator.rejections.counts)
    }

    /** The verdict was carried out: one export, or one refusal count with its status, and nothing else. */
    ghost predicate Did(v: Verdict, r: Request, refused0: seq<Count>, exported0: seq<Bytes>, status: int)
      reads this
    {
      match v
      case Exported => exported == exported0 + [r.path] && refused == refused0 && status == 200
      case Refused(reason, answer) =>
        exported == exported0 && refused == refused0 + [Count(OverHTTP, reason)] && status == answer
    }

    /** `exportHandler`: status 200 stands for whatever the export itself answers. */
    method Export(r: Request) returns (status: int)
      modifies this`refused, this`exported
      ensures Did(Judged(r), r, old(refused), old(exported), status)
    {
      if r.httpMethod != "POST" {
        refused := refused + [Count(OverHTTP, BadMethod)];
        return 405;
      }
      if !HasEncoding(r) {
        refused := refused + [Count(OverHTTP, MediaType)];
        return 415;
      }
      match r.body {
        case TooLarge =>
          refused := refused + [Count(OverHTTP, BodyTooLarge)];
          return 413;
        case Unreadable =>
          refused := refused + [Count(OverHTTP, Undecodable)];
          return 400;
        case Whole(decodes) =>
          if !decodes {
            refused := refused + [Count(OverHTTP, Undecodable)];
            return 400;
          }
          exported := exported + [r.path];
          return 200;
      }
    }

    /** `ServeHTTP`: a request that is not gRPC raises one refusal count or calls one export, never both. */
    method ServeHTTP(r: Request) returns (status: int)
      modifies this`refused, this`exported, this`toGRPC
      ensures IsGRPC(r) ==> refused == old(refused) && exported == old(exported) && toGRPC == old(toGRPC) + 1
      ensures !IsGRPC(r) ==>
                toGRPC == old(toGRPC) && Did(Dispatch(routes, r), r, old(refused), old(exported), status)
    {
      if IsGRPC(r) {
        toGRPC := toGRPC + 1;
        return 200;
      }
      if r.path in routes {
        status := Export(r);
        return;
      }
      refused := refused + [Count(OverHTTP, UnknownPath)];
      return 404;
    }

    /** `newErrorHandler`: an authenticator refusal is already counted, anything else is counted here. */
    method HandleError(r: Request, message: Bytes, status: int) returns (answer: int)
      modifies this`refused
      ensures status == UNAUTHORIZED ==> refused == old(refused)
      ensures status != UNAUTHORIZED ==>
                refused == old(refused) + [Count(if IsGRPC(r) then OverGRPC else OverHTTP, Undecompressed)]
      ensures answer == if status == UNAUTHORIZED && message == NOT_READY then UNAVAILABLE else status
    {
      if status == UNAUTHORIZED && message == NOT_READY {
        return UNAVAILABLE;
      } else if status == UNAUTHORIZED {
        return UNAUTHORIZED;
      }
      refused := refused + [Count(if IsGRPC(r) then OverGRPC else OverHTTP, Undecompressed)];
      return status;
    }

    /**
     One request: the authenticator, then whatever the server itself fails at, then the
     dispatcher. Whatever happens, it is accounted for exactly once, by the one that refused or
     exported it; only a failure of the server's own with the authenticator's status would not be.
     */
    method Receive(r: Request, token: Option<Authenticator.Compact>, w: Authenticator.World, failure: Option<Failure>)
      returns (answer: int, admitted: bool)
      requires authenticator.Valid() && Identity.Enumerates(w.order, authenticator.claimAttributes)
      modifies this, authenticator.rejections, authenticator.keys
      ensures authenticator.Valid()
      ensures admitted <==>
              token.Some? && authenticator.keys != null
              && Token.Acceptable(authenticator.config,
                                  Authenticator.PartsOf(old(authenticator.keys.View()), token.value, w), w.now)
      ensures Accounted() == old(Accounted())
                             + if admitted && failure.Some? && failure.value.status == 401 then 0 else 1
      ensures !admitted ==> refused == old(refused)
                            && answer == if token.Some? && authenticator.keys == null then 503 else 401
      ensures exported == if admitted && failure.None? && !IsGRPC(r) && Exportable(routes, r)
                          then old(exported) + [r.path] else old(exported)
    {
      var identity := authenticator.Authenticate(token, w);
      admitted := identity.Ok?;
      if identity.Err? {
        OneMoreRefusal(old(authenticator.rejections.counts), authenticator.rejections.counts, identity.error);
        OnlyNotReadyReadsSo(identity.error, authenticator.config.scope);
        answer := HandleError(r, Authenticator.ErrorText(identity.error, authenticator.config.scope), UNAUTHORIZED);
      } else if failure.Some? {
        answer := HandleError(r, failure.value.message, failure.value.status);
      } else {
        answer := ServeHTTP(r);
      }
    }
  }

  /** A registered path, POST, an OTLP encoding, and a body that is an export request. */
  predicate Exportable(routes: set<Bytes>, r: Request) {
    && r.path in routes && r.httpMethod == "POST" && r.body == Whole(true)
    && (r.mediaType == Some("application/x-protobuf") || r.mediaType == Some("application/json"))
  }

  // ------------------------------------------------------------------- gRPC

  type RpcId = nat

  datatype Code =
    | OK | Canceled | Unknown | InvalidArgument | DeadlineExceeded | NotFound | AlreadyExists | PermissionDenied
    | ResourceExhausted | FailedPrecondition | Aborted | OutOfRange | Unimplemented | Internal | Unavailable
    | DataLoss | Unauthenticated | OtherCode(n: int)

  /** `grpcRefusalReason`. */
  function RefusalReason(c: Code): Option<Reason> {
    match c
    case Unimplemented => Some(UnknownPath)
    case ResourceExhausted => Some(BodyTooLarge)
    case Canceled => None
    case DeadlineExceeded => None
    case OK => None
    case _ => Some(Undecodable)
  }

  /** One RPC: `flag` is the per-RPC mark its context carries when it is tagged. */
  datatype Rpc = Rpc(tagged: bool, flag: bool, ran: bool, unrouted: bool, ended: bool)

  /** The events grpc-go delivers. An RPC it does not tag gets no stats, so no End. */
  datatype Event =
    | TagRPC(id: RpcId)
    | MarkHandled(id: RpcId)
    | UnknownService(id: RpcId)
    | End(id: RpcId, error: Option<Code>)

  datatype State = State(rpcs: map<RpcId, Rpc>, log: seq<(RpcId, Reason)>)

  const UNTAGGED := Rpc(false, false, false, false, false)

  function Find(s: State, id: RpcId): Rpc {
    if id in s.rpcs then s.rpcs[id] else UNTAGGED
  }

  /** Each RPC is tagged at most once and first, reaches one handler at most, and ends at most once. */
  predicate Enabled(s: State, e: Event) {
    var rpc := Find(s, e.id);
    match e
    case TagRPC(id) => id !in s.rpcs
    case MarkHandled(_) => !rpc.ran && !rpc.unrouted && !rpc.ended
    case UnknownService(_) => !rpc.ran && !rpc.unrouted && !rpc.ended
    case End(_, _) => rpc.tagged && !rpc.ended
  }

  function Apply(s: State, e: Event): State {
    var rpc := Find(s, e.id);
    match e
    case TagRPC(id) => s.(rpcs := s.rpcs[id := UNTAGGED.(tagged := true)])
    case MarkHandled(id) => s.(rpcs := s.rpcs[id := rpc.(flag := rpc.tagged, ran := true)])
    case UnknownService(id) =>
      State(s.rpcs[id := rpc.(flag := rpc.tagged, unrouted := true)], s.log + [(id, UnknownPath)])
    case End(id, error) =>
      var counted := error.Some? && !rpc.flag && RefusalReason(error.value).Some?;
      State(s.rpcs[id := rpc.(ended := true)],
            if counted then s.log + [(id, RefusalReason(error.value).value)] else s.log)
  }

  function Run(events: seq<Event>): State {
    if events == [] then State(map[], [])
    else Apply(Run(events[..|events| - 1]), events[|events| - 1])
  }

  ghost predicate Delivered(events: seq<Event>) {
    forall i :: 0 <= i < |events| ==> Enabled(Run(events[..i]), events[i])
  }

  function CountOf(log: seq<(RpcId, Reason)>, id: RpcId): nat {
    if log == [] then 0 else CountOf(log[..|log| - 1], id) + if log[|log| - 1].0 == id then 1 else 0
  }

  lemma CountStep(log: seq<(RpcId, Reason)>, entry: (RpcId, Reason), id: RpcId)
    ensures CountOf(log + [entry], id) == CountOf(log, id) + if entry.0 == id then 1 else 0
  {
    assert (log + [entry])[..|log|] == log;
  }

  /** The RPC's fate so far decides its count. */
  ghost predicate Settled(rpc: Rpc, count: nat) {
    && (rpc.ran ==> count == 0)
    && (rpc.unrouted ==> count == 1)
    && (count <= 1)
    && (!rpc.unrouted && !rpc.ended ==> count == 0)
    && !(rpc.ran && rpc.unrouted)
    && (rpc.tagged ==> (rpc.flag <==> rpc.ran || rpc.unrouted))
    && (rpc.ended ==> rpc.tagged)
  }

  ghost predicate AllSettled(s: State) {
    forall id :: Settled(Find(s, id), CountOf(s.log, id))
  }

  /** An event that counts nothing keeps an RPC settled. */
  lemma SettledUncounted(s: State, e: Event, id: RpcId)
    requires Settled(Find(s, id), CountOf(s.log, id)) && Enabled(s, e) && (e.TagRPC? || e.MarkHandled?)
    ensures Settled(Find(Apply(s, e), id), CountOf(Apply(s, e).log, id))
  {
  }

  lemma SettledUnrouted(s: State, e: Event, id: RpcId)
    requires Settled(Find(s, id), CountOf(s.log, id)) && Enabled(s, e) && e.UnknownService?
    ensures Settled(Find(Apply(s, e), id), CountOf(Apply(s, e).log, id))
  {
    CountStep(s.log, (e.id, UnknownPath), id);
  }

  lemma SettledEnded(s: State, e: Event, id: RpcId)
    requires Settled(Find(s, id), CountOf(s.log, id)) && Enabled(s, e) && e.End?
    ensures Settled(Find(Apply(s, e), id), CountOf(Apply(s, e).log, id))
  {
    if e.error.Some? && RefusalReason(e.error.value).Some? {
      CountStep(s.log, (e.id, RefusalReason(e.error.value).value), id);
    }
  }

  lemma SettledKept(s: State, e: Event)
    requires AllSettled(s) && Enabled(s, e)
    ensures AllSettled(Apply(s, e))
  {
    forall id ensures Settled(Find(Apply(s, e), id), CountOf(Apply(s, e).log, id)) {
      assert Settled(Find(s, id), CountOf(s.log, id));
      match e {
        case UnknownService(_) => SettledUnrouted(s, e, id);
        case End(_, _) => SettledEnded(s, e, id);
        case _ => SettledUncounted(s, e, id);
      }
    }
  }

  lemma {:induction false} RunSettled(events: seq<Event>)
    requires Delivered(events)
    ensures AllSettled(Run(events))
  {
    if events != [] {
      var n := |events| - 1;
      var front := events[..n];
      forall i | 0 <= i < n ensures Enabled(Run(front[..i]), front[i]) {
        assert front[..i] == events[..i];
      }
      RunSettled(front);
      assert Enabled(Run(events[..n]), events[n]);
      SettledKept(Run(front), events[n]);
    }
  }

  /** However RPCs interleave, each is counted at most once, and never if its Export handler ran. */
  lemma RpcCountedAtMostOnce(events: seq<Event>, id: RpcId)
    requires Delivered(events)
    ensures CountOf(Run(events).log, id) <= 1
    ensures Find(Run(events), id).ran ==> CountOf(Run(events).log, id) == 0
    ensures Find(Run(events), id).unrouted ==> CountOf(Run(events).log, id) == 1
  {
    RunSettled(events);
    assert Settled(Find(Run(events), id), CountOf(Run(events).log, id));
  }

  /** The reason a code is counted under, if any. */
  function ReasonByCode(code: Code): Option<Reason> {
    if code == Canceled || code == DeadlineExceeded || code == OK then None
    else if code == Unimplemented then Some(UnknownPath)
    else if code == ResourceExhausted then Some(BodyTooLarge)
    else Some(Undecodable)
  }

  lemma ReasonIsByCode(code: Code)
    ensures RefusalReason(code) == ReasonByCode(code)
  {
  }

  lemma EndCounts(s: State, id: RpcId, code: Code)
    requires Enabled(s, End(id, Some(code))) && !Find(s, id).flag
    ensures Apply(s, End(id, Some(code))).log ==
            match RefusalReason(code) case Some(reason) => s.log + [(id, reason)] case None => s.log
  {
  }

  /**
   An RPC that fails before any handler is counted when it ends, under its code's reason,
   unless the client cancelled or timed out.
   */
  lemma FailureBeforeHandlerIsCounted(events: seq<Event>, id: RpcId, code: Code)
    requires Delivered(events) && Enabled(Run(events), End(id, Some(code)))
    requires !Find(Run(events), id).ran && !Find(Run(events), id).unrouted
    ensures var before, after := Run(events).log, Apply(Run(events), End(id, Some(code))).log;
            && CountOf(before, id) == 0
            && after == match ReasonByCode(code) case Some(reason) => before + [(id, reason)] case None => before
  {
    RunSettled(events);
    assert Settled(Find(Run(events), id), CountOf(Run(events).log, id));
    ReasonIsByCode(code);
    EndCounts(Run(events), id, code);
  }
}
