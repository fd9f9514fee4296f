/** AppRPC: request/response calls between pods over an unreliable network. */
module AppRpc {
  import opened Bytes
  import opened JsText
  import opened CanonicalJson

  datatype Message =
    | Request(id: Text, fromPodId: Text, targetPodId: Text, appId: Text, method_: Text, params: JsValue)
    | Response(id: Text, fromPodId: Text, targetPodId: Text, appId: Text, result: JsValue, error: Option<Text>)
    | OtherMessage(targetPodId: Text, appId: Text)

  /** How a handler ends; a thrown value may carry no message. */
  datatype HandlerResult = Returned(result: JsValue) | Threw(message: Option<Text>)

  datatype Outcome = Resolved(result: JsValue) | Rejected(message: Text)

  /** An AppRPC object. The promise of a call is known by the request that the call sent. */
  datatype Endpoint = Endpoint(
    podId: Text,
    appId: Text,
    nextId: nat,
    issued: map<Text, Message>,
    pending: map<Text, Message>,
    settled: map<Text, Outcome>)

  function Fresh(podId: Text, appId: Text): Endpoint {
    Endpoint(podId, appId, 1, map[], map[], map[])
  }

  /** The id text rpc-n. */
  function RpcId(n: nat): Text {
    [114, 112, 99, 45] + Decimal(n)
  }

  lemma RpcIdInjective(n: nat, m: nat)
    requires RpcId(n) == RpcId(m)
    ensures n == m
  {
    assert RpcId(n)[4..] == Decimal(n) && RpcId(m)[4..] == Decimal(m);
    DecimalInjective(n, m);
  }

  predicate Truthy(v: JsValue) {
    match v
    case Undefined => false
    case Null => false
    case Bool(b) => b
    case Number(n) => n != [48]
    case NonFinite(isNaN) => !isNaN
    case Str(s) => s != []
    case _ => true
  }

  function RequestOf(ep: Endpoint, targetPodId: Text, method_: Text, params: JsValue): Message {
    Request(RpcId(ep.nextId), ep.podId, targetPodId, ep.appId, method_, if Truthy(params) then params else Obj([]))
  }

  /** The state after a call has sent its request. */
  function AfterCall(ep: Endpoint, targetPodId: Text, method_: Text, params: JsValue): Endpoint {
    var m := RequestOf(ep, targetPodId, method_, params);
    ep.(nextId := ep.nextId + 1, issued := ep.issued[m.id := m], pending := ep.pending[m.id := m])
  }

  /** The error text for a missing method. */
  function NotFound(method_: Text): (t: Text)
    ensures t != []
  {
    Literal("Method '") + method_ + Literal("' not found")
  }

  function Reply(podId: Text, appId: Text, request: Message, run: Option<HandlerResult>): Message
    requires request.Request?
  {
    match run
    case None => Response(request.id, podId, request.fromPodId, appId, Null, Some(NotFound(request.method_)))
    case Some(Returned(v)) => Response(request.id, podId, request.fromPodId, appId, v, None)
    case Some(Threw(message)) => Response(request.id, podId, request.fromPodId, appId, Null, message)
  }

  /** How a response settles a promise: only a truthy error rejects. */
  function OutcomeOf(response: Message): Outcome
    requires response.Response?
  {
    if response.error.Some? && response.error.value != [] then Rejected(response.error.value)
    else Resolved(response.result)
  }

  /** The state after handleIncoming, and the reply to a request. */
  function Receive(ep: Endpoint, m: Message, run: Option<HandlerResult>): (Endpoint, Option<Message>) {
    match m
    case Request(_, _, _, _, _, _) => (ep, Some(Reply(ep.podId, ep.appId, m, run)))
    case Response(id, _, _, _, _, _) =>
      if id in ep.pending then
        (ep.(pending := ep.pending - {id}, settled := ep.settled[id := OutcomeOf(m)]), None)
      else (ep, None)
    case OtherMessage(_, _) => (ep, None)
  }

  /** A call is rejected exactly when its method is missing or throws a non-empty message. */
  lemma RejectedExactly(podId: Text, appId: Text, request: Message, run: Option<HandlerResult>)
    requires request.Request?
    ensures var o := OutcomeOf(Reply(podId, appId, request, run));
            && (o.Rejected? <==> run == None
                                 || (run.value.Threw? && run.value.message.Some? && run.value.message.value != []))
            && (run.Some? && run.value.Threw? && !o.Rejected? ==> o == Resolved(Null))
            && (run.Some? && run.value.Returned? ==> o == Resolved(run.value.result))
  {
  }

  /** What a call sends: its params, or an empty object in the place of a falsy value. */
  lemma ParamsSent(ep: Endpoint, targetPodId: Text, method_: Text, params: JsValue)
    ensures var m := RequestOf(ep, targetPodId, method_, params);
            && m == Request(Literal("rpc-") + Decimal(ep.nextId), ep.podId, targetPodId, ep.appId, method_, m.params)
            && match params
               case Undefined => m.params == Obj([])
               case Null => m.params == Obj([])
               case Bool(b) => m.params == if b then Bool(true) else Obj([])
               case Number(n) => m.params == if n == Decimal(0) then Obj([]) else Number(n)
               case NonFinite(isNaN) => m.params == if isNaN then Obj([]) else NonFinite(false)
               case Str(s) => m.params == if |s| == 0 then Obj([]) else Str(s)
               case ByteArray(b) => m.params == ByteArray(b)
               case Arr(es) => m.params == Arr(es)
               case Obj(ps) => m.params == Obj(ps)
  {
    assert Literal("rpc-") == [114, 112, 99, 45];
  }

  /** What the caller of a method gets for a run of its handler, or for none. */
  function Answer(method_: Text, run: Option<HandlerResult>): Outcome {
    match run
    case None => Rejected(Literal("Method '") + method_ + Literal("' not found"))
    case Some(Returned(v)) => Resolved(v)
    case Some(Threw(Some(t))) => if |t| == 0 then Resolved(Null) else Rejected(t)
    case Some(Threw(None)) => Resolved(Null)
  }

  // ----- The network -----

  /** Where messages are routed: the target pod and the app. */
  datatype Address = Address(pod: Text, app: Text)

  /** One run of handleIncoming on a request. */
  datatype Execution = Execution(at: Address, request: Message, run: Option<HandlerResult>)

  /** Every message ever sent stays deliverable, so messages may be duplicated, reordered or never arrive. */
  datatype Network = Network(nodes: map<Address, Endpoint>, sent: set<Message>, executions: set<Execution>)

  datatype Event =
    | CallMade(at: Address, targetPodId: Text, method_: Text, params: JsValue)
    | Delivered(message: Message, run: Option<HandlerResult>)

  function Destination(m: Message): Address {
    Address(m.targetPodId, m.appId)
  }

  predicate Possible(net: Network, e: Event) {
    match e
    case CallMade(at, _, _, _) => at in net.nodes
    case Delivered(m, _) => m in net.sent && Destination(m) in net.nodes
  }

  function StepNetwork(net: Network, e: Event): Network
    requires Possible(net, e)
  {
    match e
    case CallMade(at, target, method_, params) =>
      net.(nodes := net.nodes[at := AfterCall(net.nodes[at], target, method_, params)],
           sent := net.sent + {RequestOf(net.nodes[at], target, method_, params)})
    case Delivered(m, run) =>
      var at := Destination(m);
      var (ep, reply) := Receive(net.nodes[at], m, run);
      net.(nodes := net.nodes[at := ep],
           sent := if reply.Some? then net.sent + {reply.value} else net.sent,
           executions := if m.Request? then net.executions + {Execution(at, m, run)} else net.executions)
  }

  function Initial(addresses: set<Address>): Network {
    Network(map a | a in addresses :: Fresh(a.pod, a.app), {}, {})
  }

  /** A run is any order of calls and deliveries that are possible when they happen. */
  predicate IsRun(addresses: set<Address>, events: seq<Event>)
    decreases |events|, 0
  {
    events == []
    || (IsRun(addresses, events[..|events| - 1])
        && Possible(After(addresses, events[..|events| - 1]), events[|events| - 1]))
  }

  function After(addresses: set<Address>, events: seq<Event>): Network
    requires IsRun(addresses, events)
    decreases |events|, 1
  {
    if events == [] then Initial(addresses)
    else StepNetwork(After(addresses, events[..|events| - 1]), events[|events| - 1])
  }

  /** The ids with the numbers 1 to n - 1. */
  ghost predicate IdsBelow(ids: set<Text>, n: nat) {
    forall id :: id in ids <==> exists k: nat :: 1 <= k < n && id == RpcId(k)
  }

  /** The requests sit under their ids, and pending are exactly the issued ones that have not settled. */
  ghost predicate TablesAgree(a: Address, ep: Endpoint) {
    && (forall id :: id in ep.issued ==>
          && ep.issued[id].Request? && ep.issued[id].id == id
          && ep.issued[id].fromPodId == a.pod && ep.issued[id].appId == a.app)
    && (forall id :: id in ep.pending <==> id in ep.issued && id !in ep.settled)
    && (forall id :: id in ep.pending ==> ep.pending[id] == ep.issued[id])
    && (forall id :: id in ep.settled ==> id in ep.issued)
  }

  /** Ids are issued once and in order, and the tables agree. */
  ghost predicate EndpointInvariant(a: Address, ep: Endpoint) {
    && ep.podId == a.pod && ep.appId == a.app && ep.nextId >= 1
    && IdsBelow(ep.issued.Keys, ep.nextId) && TablesAgree(a, ep)
  }

  ghost predicate RequestGenuine(net: Network, m: Message)
    requires m.Request?
  {
    var a := Address(m.fromPodId, m.appId);
    a in net.nodes && m.id in net.nodes[a].issued && net.nodes[a].issued[m.id] == m
  }

  ghost predicate ResponseGenuine(net: Network, m: Message) {
    exists x :: x in net.executions && x.request.Request? && m == Reply(x.at.pod, x.at.app, x.request, x.run)
  }

  /** The outcome of a call is what one execution of that very request at its target produced. */
  ghost predicate SettledBy(net: Network, request: Message, o: Outcome) {
    exists x :: x in net.executions && x.request == request && request.Request?
                && x.at == Destination(request) && o == OutcomeOf(Reply(x.at.pod, x.at.app, request, x.run))
  }

  ghost predicate NetworkInvariant(net: Network) {
    && (forall a :: a in net.nodes ==> EndpointInvariant(a, net.nodes[a]))
    && (forall m :: m in net.sent && m.Request? ==> RequestGenuine(net, m))
    && (forall m :: m in net.sent && m.Response? ==> ResponseGenuine(net, m))
    && (forall x :: x in net.executions ==>
          x.request in net.sent && x.request.Request? && x.at == Destination(x.request))
    && (forall a, id :: a in net.nodes && id in net.nodes[a].settled && id in net.nodes[a].issued ==>
          SettledBy(net, net.nodes[a].issued[id], net.nodes[a].settled[id]))
  }

  lemma FreshId(a: Address, ep: Endpoint)
    requires EndpointInvariant(a, ep)
    ensures RpcId(ep.nextId) !in ep.issued
  {
    if RpcId(ep.nextId) in ep.issued {
      var k: nat :| 1 <= k < ep.nextId && RpcId(ep.nextId) == RpcId(k);
      RpcIdInjective(ep.nextId, k);
    }
  }

  lemma CallKeepsEndpoint(a: Address, ep: Endpoint, target: Text, method_: Text, params: JsValue)
    requires EndpointInvariant(a, ep)
    ensures EndpointInvariant(a, AfterCall(ep, target, method_, params))
  {
    FreshId(a, ep);
    IdsExtend(ep.issued.Keys, ep.nextId);
    IssueKeepsTables(a, ep, RequestOf(ep, target, method_, params), ep.nextId + 1);
  }

  lemma IssueKeepsTables(a: Address, ep: Endpoint, m: Message, nextId: nat)
    requires TablesAgree(a, ep) && m.Request? && m.id !in ep.issued && m.fromPodId == a.pod && m.appId == a.app
    ensures var ep' := ep.(nextId := nextId, issued := ep.issued[m.id := m], pending := ep.pending[m.id := m]);
            TablesAgree(a, ep') && ep'.issued.Keys == ep.issued.Keys + {m.id}
  {
  }

  lemma IdsExtend(ids: set<Text>, n: nat)
    requires IdsBelow(ids, n) && n >= 1
    ensures IdsBelow(ids + {RpcId(n)}, n + 1)
  {
    forall id ensures id in ids + {RpcId(n)} <==> exists k: nat :: 1 <= k < n + 1 && id == RpcId(k) {
      if k: nat :| 1 <= k < n + 1 && id == RpcId(k) {
        assert k == n || 1 <= k < n;
      }
    }
  }

  lemma ReceiveKeepsEndpoint(a: Address, ep: Endpoint, m: Message, run: Option<HandlerResult>)
    requires EndpointInvariant(a, ep)
    ensures EndpointInvariant(a, Receive(ep, m, run).0)
    ensures Receive(ep, m, run).0.issued == ep.issued
  {
  }

  lemma SettledByStays(net: Network, net': Network, request: Message, o: Outcome)
    requires SettledBy(net, request, o) && net.executions <= net'.executions
    ensures SettledBy(net', request, o)
  {
  }

  lemma ResponseGenuineStays(net: Network, net': Network, m: Message)
    requires ResponseGenuine(net, m) && net.executions <= net'.executions
    ensures ResponseGenuine(net', m)
  {
  }

  lemma CallKeepsInvariant(net: Network, e: Event)
    requires NetworkInvariant(net) && Possible(net, e) && e.CallMade?
    ensures NetworkInvariant(StepNetwork(net, e))
  {
    var net' := StepNetwork(net, e);
    var ep := net.nodes[e.at];
    CallKeepsEndpoint(e.at, ep, e.targetPodId, e.method_, e.params);
    FreshId(e.at, ep);
    forall m | m in net'.sent && m.Request? ensures RequestGenuine(net', m) {
      if m in net.sent {
        assert RequestGenuine(net, m);
      }
    }
    forall m | m in net'.sent && m.Response? ensures ResponseGenuine(net', m) {
      ResponseGenuineStays(net, net', m);
    }
    forall a, id | a in net'.nodes && id in net'.nodes[a].settled && id in net'.nodes[a].issued
      ensures SettledBy(net', net'.nodes[a].issued[id], net'.nodes[a].settled[id])
    {
      assert id in net.nodes[a].settled && id in net.nodes[a].issued;
      SettledByStays(net, net', net.nodes[a].issued[id], net.nodes[a].settled[id]);
    }
  }

  lemma ReplyAddress(podId: Text, appId: Text, request: Message, run: Option<HandlerResult>)
    requires request.Request?
    ensures var m := Reply(podId, appId, request, run);
            m.Response? && m.id == request.id && m.targetPodId == request.fromPodId && m.appId == appId
  {
  }

  lemma ResponseOrigin(net: Network, m: Message) returns (x: Execution)
    requires NetworkInvariant(net) && m in net.sent && m.Response?
    ensures x in net.executions && x.request.Request? && m == Reply(x.at.pod, x.at.app, x.request, x.run)
    ensures x.request in net.sent && x.at == Destination(x.request) && RequestGenuine(net, x.request)
  {
    assert ResponseGenuine(net, m);
    x :| x in net.executions && x.request.Request? && m == Reply(x.at.pod, x.at.app, x.request, x.run);
  }

  /** A genuine response goes back to the endpoint that issued the request it answers. */
  lemma ResponseFindsCaller(net: Network, m: Message)
    requires NetworkInvariant(net) && m in net.sent && m.Response? && Destination(m) in net.nodes
    ensures var ep := net.nodes[Destination(m)]; m.id in ep.issued && SettledBy(net, ep.issued[m.id], OutcomeOf(m))
  {
    var x := ResponseOrigin(net, m);
    ReplyAddress(x.at.pod, x.at.app, x.request, x.run);
    assert Destination(m) == Address(x.request.fromPodId, x.request.appId);
  }

  /** A delivery issues no call and sends no request. */
  lemma DeliveryFrame(net: Network, e: Event)
    requires Possible(net, e) && e.Delivered?
    ensures var net' := StepNetwork(net, e);
            && net'.nodes.Keys == net.nodes.Keys
            && (forall a :: a in net.nodes ==> net'.nodes[a].issued == net.nodes[a].issued)
            && (forall m :: m in net'.sent && m.Request? ==> m in net.sent)
            && net.executions <= net'.executions
  {
  }

  lemma DeliveryKeepsRequests(net: Network, e: Event)
    requires NetworkInvariant(net) && Possible(net, e) && e.Delivered?
    ensures var net' := StepNetwork(net, e); forall m :: m in net'.sent && m.Request? ==> RequestGenuine(net', m)
  {
    var net' := StepNetwork(net, e);
    DeliveryFrame(net, e);
    forall m | m in net'.sent && m.Request? ensures RequestGenuine(net', m) {
      RequestGenuineStays(net, net', m);
    }
  }

  lemma RequestGenuineStays(net: Network, net': Network, m: Message)
    requires m.Request? && RequestGenuine(net, m) && net'.nodes.Keys == net.nodes.Keys
    requires forall a :: a in net.nodes ==> net'.nodes[a].issued == net.nodes[a].issued
    ensures RequestGenuine(net', m)
  {
  }

  lemma DeliveryKeepsResponses(net: Network, e: Event)
    requires NetworkInvariant(net) && Possible(net, e) && e.Delivered?
    ensures var net' := StepNetwork(net, e); forall m :: m in net'.sent && m.Response? ==> ResponseGenuine(net', m)
  {
    var net' := StepNetwork(net, e);
    var at := Destination(e.message);
    assert EndpointInvariant(at, net.nodes[at]);
    forall m | m in net'.sent && m.Response? ensures ResponseGenuine(net', m) {
      if m in net.sent {
        ResponseGenuineStays(net, net', m);
      } else {
        assert Execution(at, e.message, e.run) in net'.executions;
      }
    }
  }

  /** Only the response to a pending call adds an outcome, and it is the outcome of that response. */
  lemma DeliveryOutcome(net: Network, e: Event, a: Address, id: Text)
    requires Possible(net, e) && e.Delivered? && a in net.nodes && id in StepNetwork(net, e).nodes[a].settled
    ensures var m, o := e.message, StepNetwork(net, e).nodes[a].settled[id];
            || (id in net.nodes[a].settled && o == net.nodes[a].settled[id])
            || (m.Response? && m.id == id && Destination(m) == a && o == OutcomeOf(m))
  {
  }

  lemma DeliveryKeepsOutcome(net: Network, e: Event, a: Address, id: Text)
    requires NetworkInvariant(net) && Possible(net, e) && e.Delivered? && a in net.nodes
    requires var ep := StepNetwork(net, e).nodes[a]; id in ep.settled && id in ep.issued
    ensures var net' := StepNetwork(net, e); SettledBy(net', net'.nodes[a].issued[id], net'.nodes[a].settled[id])
  {
    var net' := StepNetwork(net, e);
    var o := net'.nodes[a].settled[id];
    DeliveryFrame(net, e);
    DeliveryOutcome(net, e, a, id);
    if id in net.nodes[a].settled && o == net.nodes[a].settled[id] {
      SettledByStays(net, net', net.nodes[a].issued[id], o);
    } else {
      ResponseFindsCaller(net, e.message);
      SettledByStays(net, net', net.nodes[a].issued[id], o);
    }
  }

  lemma DeliveryKeepsInvariant(net: Network, e: Event)
    requires NetworkInvariant(net) && Possible(net, e) && e.Delivered?
    ensures NetworkInvariant(StepNetwork(net, e))
  {
    var at := Destination(e.message);
    ReceiveKeepsEndpoint(at, net.nodes[at], e.message, e.run);
    DeliveryKeepsRequests(net, e);
    DeliveryKeepsResponses(net, e);
    var net' := StepNetwork(net, e);
    forall a, id | a in net'.nodes && id in net'.nodes[a].settled && id in net'.nodes[a].issued
      ensures SettledBy(net', net'.nodes[a].issued[id], net'.nodes[a].settled[id])
    {
      DeliveryKeepsOutcome(net, e, a, id);
    }
  }

  /**
   * In every run over a network that may drop, duplicate and reorder messages, no id is issued twice, the
   * pending calls are exactly the issued ones that have not settled, and a settled call has the outcome
   * that some run of handleIncoming on that very request produced.
   */
  lemma {:induction false} RunInvariant(addresses: set<Address>, events: seq<Event>)
    requires IsRun(addresses, events)
    ensures NetworkInvariant(After(addresses, events))
  {
    if events != [] {
      var e := events[|events| - 1];
      RunInvariant(addresses, events[..|events| - 1]);
      if e.CallMade? {
        CallKeepsInvariant(After(addresses, events[..|events| - 1]), e);
      } else {
        DeliveryKeepsInvariant(After(addresses, events[..|events| - 1]), e);
      }
    }
  }

  /** One step never changes the request or the outcome of a call, and only its own response settles it. */
  lemma StepSettlesOnce(net: Network, e: Event, a: Address, id: Text)
    requires NetworkInvariant(net) && Possible(net, e) && a in net.nodes && id in net.nodes[a].issued
    ensures var net' := StepNetwork(net, e);
            && a in net'.nodes && id in net'.nodes[a].issued
            && net'.nodes[a].issued[id] == net.nodes[a].issued[id]
            && (id in net.nodes[a].settled ==>
                  id in net'.nodes[a].settled && net'.nodes[a].settled[id] == net.nodes[a].settled[id])
            && (id !in net.nodes[a].settled && id in net'.nodes[a].settled ==>
                  e.Delivered? && e.message.Response? && e.message.id == id && Destination(e.message) == a
                  && net'.nodes[a].settled[id] == OutcomeOf(e.message))
  {
    assert EndpointInvariant(a, net.nodes[a]);
    if e.CallMade? && e.at == a {
      FreshId(a, net.nodes[a]);
    }
  }

  /** A call settles at most once: whatever happens later, its request and its outcome stay as they are. */
  lemma {:induction false} SettledForever(addresses: set<Address>, events: seq<Event>, n: nat, a: Address, id: Text)
    requires IsRun(addresses, events) && n <= |events| && IsRun(addresses, events[..n])
    requires a in After(addresses, events[..n]).nodes && id in After(addresses, events[..n]).nodes[a].issued
    ensures var early, late := After(addresses, events[..n]), After(addresses, events);
            && a in late.nodes && id in late.nodes[a].issued
            && late.nodes[a].issued[id] == early.nodes[a].issued[id]
            && (id in early.nodes[a].settled ==>
                  id in late.nodes[a].settled && late.nodes[a].settled[id] == early.nodes[a].settled[id])
  {
    if n < |events| {
      var init := events[..|events| - 1];
      assert init[..n] == events[..n];
      SettledForever(addresses, init, n, a, id);
      RunInvariant(addresses, init);
      StepSettlesOnce(After(addresses, init), events[|events| - 1], a, id);
    } else {
      assert events[..n] == events;
    }
  }

  // ----- From call to answer -----

  /** A reply goes back with the id of its request, and carries the handler's result or its error, not both. */
  lemma ReplyMeans(podId: Text, appId: Text, request: Message, run: Option<HandlerResult>)
    requires request.Request?
    ensures var m := Reply(podId, appId, request, run);
            && m == Response(request.id, podId, request.fromPodId, appId, m.result, m.error)
            && match run
               case None =>
                 m.result == Null && m.error == Some(Literal("Method '") + request.method_ + Literal("' not found"))
               case Some(Returned(v)) => m.result == v && m.error == None
               case Some(Threw(t)) => m.result == Null && m.error == t
    ensures OutcomeOf(Reply(podId, appId, request, run)) == Answer(request.method_, run)
  {
  }

  /** Delivering the request of a pending call and then its reply settles the call with the handler's answer. */
  lemma ReplySettles(net: Network, m: Message, run: Option<HandlerResult>)
    requires NetworkInvariant(net) && m in net.sent && m.Request? && Destination(m) in net.nodes
    requires var a := Address(m.fromPodId, m.appId); a in net.nodes && m.id in net.nodes[a].pending
    ensures var answered := StepNetwork(net, Delivered(m, run));
            var reply := Reply(m.targetPodId, m.appId, m, run);
            var a := Address(m.fromPodId, m.appId);
            && reply in answered.sent && Destination(reply) == a && Possible(answered, Delivered(reply, None))
            && a in StepNetwork(answered, Delivered(reply, None)).nodes
            && var ep := StepNetwork(answered, Delivered(reply, None)).nodes[a];
               && m.id !in ep.pending
               && m.id in ep.settled && ep.settled[m.id] == Answer(m.method_, run)
  {
    assert EndpointInvariant(Destination(m), net.nodes[Destination(m)]);
    ReplyAddress(m.targetPodId, m.appId, m, run);
    ReplyMeans(m.targetPodId, m.appId, m, run);
  }

  /**
   * A call, the delivery of its request to the target and the delivery of the reply settle the call with the
   * answer of the target's handler, which has been given the caller's own params.
   */
  lemma CallCompletes(net: Network, at: Address, targetPodId: Text, method_: Text, params: JsValue,
                      run: Option<HandlerResult>)
    returns (m: Message, reply: Message)
    requires NetworkInvariant(net) && at in net.nodes && Address(targetPodId, at.app) in net.nodes
    ensures m.Request? && m.targetPodId == targetPodId && m.appId == at.app && m.fromPodId == at.pod
    ensures m.method_ == method_ && m.params == (if Falsy(params) then Obj([]) else params)
    ensures var called := StepNetwork(net, CallMade(at, targetPodId, method_, params));
            Possible(called, Delivered(m, run))
            && var answered := StepNetwork(called, Delivered(m, run));
               Possible(answered, Delivered(reply, None))
               && var ended := StepNetwork(answered, Delivered(reply, None));
                  at in ended.nodes && m.id in ended.nodes[at].settled
                  && ended.nodes[at].settled[m.id] == Answer(method_, run)
  {
    var e := CallMade(at, targetPodId, method_, params);
    m := RequestOf(net.nodes[at], targetPodId, method_, params);
    reply := Reply(targetPodId, at.app, m, run);
    assert EndpointInvariant(at, net.nodes[at]);
    ParamsSent(net.nodes[at], targetPodId, method_, params);
    CallKeepsInvariant(net, e);
    ReplySettles(StepNetwork(net, e), m, run);
  }

  /** The values that JavaScript takes for false. */
  predicate Falsy(v: JsValue) {
    v == Undefined || v == Null || v == Bool(false) || v == Number(Decimal(0)) || v == NonFinite(true) || v == Str([])
  }

  // ----- The object -----

  class AppRPC {
    const appId: Text
    const localPodId: Text
    var methods: map<Text, JsValue -> HandlerResult>
    var nextId: nat
    var pending: map<Text, Message>
    var lastOutgoing: Option<Message>
    ghost var issued: map<Text, Message>
    /** The outcome that each settled promise has taken. */
    var settled: map<Text, Outcome>

    ghost function Snapshot(): Endpoint
      reads this
    {
      Endpoint(localPodId, appId, nextId, issued, pending, settled)
    }

    constructor (appId: Text, localPodId: Text)
      ensures Snapshot() == Fresh(localPodId, appId) && methods == map[]
    {
      this.appId, this.localPodId := appId, localPodId;
      methods, nextId, pending, lastOutgoing, issued, settled := map[], 1, map[], None, map[], map[];
    }

    method Register(method_: Text, handler: JsValue -> HandlerResult)
      modifies this`methods
      ensures methods == old(methods)[method_ := handler]
    {
      methods := methods[method_ := handler];
    }

    method Call(targetPodId: Text, method_: Text, params: JsValue) returns (message: Message)
      modifies this
      ensures message == RequestOf(old(Snapshot()), targetPodId, method_, params)
      ensures message == Request(Literal("rpc-") + Decimal(old(nextId)), localPodId, targetPodId, appId, method_,
                                 if Falsy(params) then Obj([]) else params)
      ensures nextId == old(nextId) + 1 && pending == old(pending)[message.id := message]
      ensures Snapshot() == AfterCall(old(Snapshot()), targetPodId, method_, params)
      ensures methods == old(methods) && lastOutgoing == Some(message)
    {
      var id := RpcId(nextId);
      ParamsSent(Snapshot(), targetPodId, method_, params);
      nextId := nextId + 1;
      message := Request(id, localPodId, targetPodId, appId, method_, if Truthy(params) then params else Obj([]));
      lastOutgoing := Some(message);
      pending := pending[id := message];
      issued := issued[id := message];
    }

    method HandleIncoming(message: Message) returns (reply: Option<Message>)
      modifies this
      ensures var runs := message.Request? && message.method_ in methods;
              var run := if runs then Some(methods[message.method_](message.params)) else None;
              (Snapshot(), reply) == Receive(old(Snapshot()), message, run)
      ensures message.Request? ==>
                && reply.Some? && reply.value.Response? && reply.value.id == message.id
                && reply.value.fromPodId == localPodId && reply.value.targetPodId == message.fromPodId
                && reply.value.appId == appId
      ensures message.Response? ==>
                && pending == old(pending) - {message.id}
                && settled == if message.id !in old(pending) then old(settled)
                              else old(settled)[message.id := if message.error.Some? && |message.error.value| > 0
                                                              then Rejected(message.error.value)
                                                              else Resolved(message.result)]
      ensures !message.Response? ==> pending == old(pending) && settled == old(settled)
      ensures methods == old(methods) && nextId == old(nextId)
    {
      match message
      case Request(id, fromPodId, _, _, method_, params) =>
        if method_ !in methods {
          return Some(Response(id, localPodId, fromPodId, appId, Null, Some(NotFound(method_))));
        }
        match methods[method_](params) {
          case Returned(result) => return Some(Response(id, localPodId, fromPodId, appId, result, None));
          case Threw(error) => return Some(Response(id, localPodId, fromPodId, appId, Null, error));
        }
      case Response(id, _, _, _, result, error) =>
        if id in pending {
          pending := pending - {id};
          var rejects := error.Some? && error.value != [];
          settled := settled[id := if rejects then Rejected(error.value) else Resolved(result)];
        }
        return None;
      case OtherMessage(_, _) =>
        return None;
    }
  }
}
