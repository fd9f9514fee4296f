/** AppEventBus: listeners, one-shot listeners and emits that call back into the bus. */
module EventBus {
  import opened Bytes
  import opened JsText

  /** A subscribed function: a callback, or the private wrapper that a call of once creates around one. */
  datatype Listener = Plain(callback: nat) | OnceWrapper(uid: nat)

  /** What client code, callbacks included, may ask of the bus; EventNesting adds emits from inside callbacks. */
  datatype Request =
    | On(eventType: Text, callback: nat)
    | Off(eventType: Text, callback: nat)
    | Once(eventType: Text)
    | RemoveAll(eventTypes: Option<Text>)

  /** called lists every listener run so far, oldest first. */
  datatype Bus = Bus(listeners: map<Text, seq<Listener>>, nextUid: nat, called: seq<Listener>)

  const EMPTY_BUS := Bus(map[], 0, [])

  function ListOf(b: Bus, t: Text): seq<Listener> {
    if t in b.listeners then b.listeners[t] else []
  }

  function Subscribe(b: Bus, t: Text, l: Listener): Bus {
    b.(listeners := b.listeners[t := ListOf(b, t) + [l]])
  }

  /** The list without the first occurrence of l. */
  function RemoveFirst(ls: seq<Listener>, l: Listener): seq<Listener> {
    if ls == [] then []
    else if ls[0] == l then ls[1..]
    else [ls[0]] + RemoveFirst(ls[1..], l)
  }

  /** off: a list that becomes empty is dropped. */
  function Unsubscribe(b: Bus, t: Text, l: Listener): Bus {
    if t !in b.listeners then b
    else
      var left := RemoveFirst(b.listeners[t], l);
      b.(listeners := if left == [] then b.listeners - {t} else b.listeners[t := left])
  }

  function Serve(b: Bus, r: Request): Bus {
    match r
    case On(t, cb) => Subscribe(b, t, Plain(cb))
    case Off(t, cb) => Unsubscribe(b, t, Plain(cb))
    case Once(t) => Subscribe(b, t, OnceWrapper(b.nextUid)).(nextUid := b.nextUid + 1)
    case RemoveAll(Some(t)) => b.(listeners := b.listeners - {t})
    case RemoveAll(None) => b.(listeners := map[])
  }

  function ServeAll(b: Bus, rs: seq<Request>): Bus
    decreases |rs|
  {
    if rs == [] then b else ServeAll(Serve(b, rs[0]), rs[1..])
  }

  /** One listener runs: a wrapper first takes itself off, then the callback makes its requests. */
  function Call(b: Bus, t: Text, l: Listener, requests: seq<Request>): Bus {
    var b' := if l.OnceWrapper? then Unsubscribe(b, t, l) else b;
    ServeAll(b'.(called := b.called + [l]), requests)
  }

  /** The listeners of a snapshot run in order; reactions[i] are the requests of the i-th callback. */
  function CallEach(b: Bus, t: Text, snapshot: seq<Listener>, reactions: nat -> seq<Request>, i: nat): Bus
    requires i <= |snapshot|
    decreases |snapshot| - i
  {
    if i == |snapshot| then b else CallEach(Call(b, t, snapshot[i], reactions(i)), t, snapshot, reactions, i + 1)
  }

  function Emit(b: Bus, t: Text, reactions: nat -> seq<Request>): Bus {
    CallEach(b, t, ListOf(b, t), reactions, 0)
  }

  // ----- Delivery -----

  lemma {:induction false} ServeAllCallsNobody(b: Bus, rs: seq<Request>)
    ensures ServeAll(b, rs).called == b.called
    decreases |rs|
  {
    if rs != [] {
      ServeAllCallsNobody(Serve(b, rs[0]), rs[1..]);
    }
  }

  lemma {:induction false} CallEachCalls(
    b: Bus, t: Text, snapshot: seq<Listener>, reactions: nat -> seq<Request>, i: nat)
    requires i <= |snapshot|
    ensures CallEach(b, t, snapshot, reactions, i).called == b.called + snapshot[i..]
    decreases |snapshot| - i
  {
    if i < |snapshot| {
      var b' := if snapshot[i].OnceWrapper? then Unsubscribe(b, t, snapshot[i]) else b;
      ServeAllCallsNobody(b'.(called := b.called + [snapshot[i]]), reactions(i));
      CallEachCalls(Call(b, t, snapshot[i], reactions(i)), t, snapshot, reactions, i + 1);
      assert snapshot[i..] == [snapshot[i]] + snapshot[i + 1..];
    }
  }

  /** An emit runs exactly the listeners subscribed at its start, in order, whatever the callbacks do meanwhile. */
  lemma EmitDelivers(b: Bus, t: Text, reactions: nat -> seq<Request>)
    ensures Emit(b, t, reactions).called == b.called + ListOf(b, t)
  {
    CallEachCalls(b, t, ListOf(b, t), reactions, 0);
  }

  // ----- One-shot listeners -----

  ghost predicate DistinctWrappers(ls: seq<Listener>) {
    forall i, j :: 0 <= i < j < |ls| && ls[i].OnceWrapper? ==> ls[i] != ls[j]
  }

  /** The wrapper is subscribed to events of type t. */
  predicate Waiting(b: Bus, uid: nat, t: Text) {
    t in b.listeners && OnceWrapper(uid) in b.listeners[t]
  }

  /** No list is empty, and a wrapper is in at most one place: one position of one list, or one past call. */
  ghost predicate Invariant(b: Bus) {
    && (forall t :: t in b.listeners ==> b.listeners[t] != [] && DistinctWrappers(b.listeners[t]))
    && (forall uid: nat, t, u :: Waiting(b, uid, t) && Waiting(b, uid, u) ==> t == u)
    && (forall uid: nat, t :: Waiting(b, uid, t) ==> uid < b.nextUid && OnceWrapper(uid) !in b.called)
    && (forall l :: l in b.called && l.OnceWrapper? ==> l.uid < b.nextUid)
    && DistinctWrappers(b.called)
  }

  lemma {:induction false} RemoveFirstMembers(ls: seq<Listener>, l: Listener)
    requires DistinctWrappers(ls)
    ensures DistinctWrappers(RemoveFirst(ls, l))
    ensures forall x :: x in RemoveFirst(ls, l) ==> x in ls
    ensures forall x :: x in ls && x != l ==> x in RemoveFirst(ls, l)
    ensures l.OnceWrapper? ==> l !in RemoveFirst(ls, l)
  {
    if ls != [] {
      var rest := ls[1..];
      assert ls == [ls[0]] + rest;
      RemoveFirstMembers(rest, l);
      if ls[0] != l {
        var left := [ls[0]] + RemoveFirst(rest, l);
        forall i, j | 0 <= i < j < |left| && left[i].OnceWrapper? ensures left[i] != left[j] {
          assert left[j] in RemoveFirst(rest, l);
        }
      }
    }
  }

  /** Taking subscriptions away keeps the invariant. */
  lemma FewerWaiting(b: Bus, b': Bus)
    requires Invariant(b) && b'.called == b.called && b'.nextUid == b.nextUid
    requires forall t :: t in b'.listeners ==> b'.listeners[t] != [] && DistinctWrappers(b'.listeners[t])
    requires forall uid: nat, t :: Waiting(b', uid, t) ==> Waiting(b, uid, t)
    ensures Invariant(b')
  {
    forall uid: nat, t, u | Waiting(b', uid, t) && Waiting(b', uid, u) ensures t == u {
      assert Waiting(b, uid, t) && Waiting(b, uid, u);
    }
  }

  lemma UnsubscribeKeeps(b: Bus, t: Text, l: Listener)
    requires Invariant(b)
    ensures Invariant(Unsubscribe(b, t, l))
    ensures forall uid: nat, u :: Waiting(Unsubscribe(b, t, l), uid, u)
              <==> Waiting(b, uid, u) && !(u == t && l == OnceWrapper(uid))
  {
    if t in b.listeners {
      RemoveFirstMembers(b.listeners[t], l);
    }
    FewerWaiting(b, Unsubscribe(b, t, l));
  }

  lemma SubscribedDistinct(b: Bus, t: Text, l: Listener)
    requires Invariant(b) && (l.OnceWrapper? ==> l.uid == b.nextUid)
    ensures DistinctWrappers(ListOf(b, t) + [l])
  {
    var ls := ListOf(b, t) + [l];
    forall i, j | 0 <= i < j < |ls| && ls[i].OnceWrapper? ensures ls[i] != ls[j] {
      if j == |ls| - 1 && t in b.listeners {
        assert Waiting(b, ls[i].uid, t);
      }
    }
  }

  lemma SubscribeKeeps(b: Bus, t: Text, l: Listener)
    requires Invariant(b) && (l.OnceWrapper? ==> l.uid == b.nextUid)
    ensures Invariant(Subscribe(b, t, l).(nextUid := if l.OnceWrapper? then b.nextUid + 1 else b.nextUid))
    ensures forall uid: nat, u :: Waiting(Subscribe(b, t, l), uid, u)
              <==> Waiting(b, uid, u) || (u == t && l == OnceWrapper(uid))
  {
    SubscribedDistinct(b, t, l);
    var b' := Subscribe(b, t, l);
    forall uid: nat, u
      ensures Waiting(b', uid, u) <==> Waiting(b, uid, u) || (u == t && l == OnceWrapper(uid))
    {
    }
    var c := b'.(nextUid := if l.OnceWrapper? then b.nextUid + 1 else b.nextUid);
    forall uid: nat, u ensures Waiting(c, uid, u) <==> Waiting(b', uid, u) {
    }
    assert forall uid: nat, u, v :: Waiting(c, uid, u) && Waiting(c, uid, v) ==> u == v;
    assert forall uid: nat, u :: Waiting(c, uid, u) ==> uid < c.nextUid && OnceWrapper(uid) !in c.called;
  }

  /** Requests keep the invariant, call nobody and never subscribe an old wrapper again. */
  lemma ServeKeeps(b: Bus, r: Request)
    requires Invariant(b)
    ensures Invariant(Serve(b, r)) && Serve(b, r).called == b.called && b.nextUid <= Serve(b, r).nextUid
    ensures forall uid: nat, u :: uid < b.nextUid && Waiting(Serve(b, r), uid, u) ==> Waiting(b, uid, u)
  {
    match r
    case On(t, cb) => SubscribeKeeps(b, t, Plain(cb));
    case Off(t, cb) => UnsubscribeKeeps(b, t, Plain(cb));
    case Once(t) =>
      SubscribeKeeps(b, t, OnceWrapper(b.nextUid));
      forall uid: nat, u | uid < b.nextUid && Waiting(Serve(b, r), uid, u) ensures Waiting(b, uid, u) {
        assert Waiting(Subscribe(b, t, OnceWrapper(b.nextUid)), uid, u);
      }
    case RemoveAll(_) => FewerWaiting(b, Serve(b, r));
  }

  lemma {:induction false} ServeAllKeeps(b: Bus, rs: seq<Request>)
    requires Invariant(b)
    ensures Invariant(ServeAll(b, rs)) && ServeAll(b, rs).called == b.called && b.nextUid <= ServeAll(b, rs).nextUid
    ensures forall uid: nat, u :: uid < b.nextUid && Waiting(ServeAll(b, rs), uid, u) ==> Waiting(b, uid, u)
    decreases |rs|
  {
    if rs != [] {
      ServeKeeps(b, rs[0]);
      ServeAllKeeps(Serve(b, rs[0]), rs[1..]);
    }
  }

  /** The wrappers still to run in an emit have never run and are subscribed nowhere else. */
  ghost predicate Pending(b: Bus, t: Text, snapshot: seq<Listener>, i: nat) {
    && DistinctWrappers(snapshot)
    && forall k :: i <= k < |snapshot| && snapshot[k].OnceWrapper? ==>
         && snapshot[k].uid < b.nextUid && snapshot[k] !in b.called
         && forall u :: Waiting(b, snapshot[k].uid, u) ==> u == t
  }

  /** A listener that waits nowhere and has not run before may be recorded as run. */
  lemma RecordKeeps(b: Bus, l: Listener)
    requires Invariant(b)
    requires l.OnceWrapper? ==> l.uid < b.nextUid && l !in b.called && forall u :: !Waiting(b, l.uid, u)
    ensures Invariant(b.(called := b.called + [l]))
    ensures forall uid: nat, u :: Waiting(b.(called := b.called + [l]), uid, u) <==> Waiting(b, uid, u)
  {
    var c := b.(called := b.called + [l]);
    forall uid: nat, u ensures Waiting(c, uid, u) <==> Waiting(b, uid, u) {
    }
    assert forall uid: nat, u, v :: Waiting(c, uid, u) && Waiting(c, uid, v) ==> u == v;
    assert forall uid: nat, u :: Waiting(c, uid, u) ==> uid < c.nextUid && OnceWrapper(uid) !in c.called;
  }

  lemma CallKeeps(b: Bus, t: Text, snapshot: seq<Listener>, i: nat, requests: seq<Request>)
    requires Invariant(b) && Pending(b, t, snapshot, i) && i < |snapshot|
    ensures Invariant(Call(b, t, snapshot[i], requests))
    ensures Pending(Call(b, t, snapshot[i], requests), t, snapshot, i + 1)
  {
    var l := snapshot[i];
    var b' := if l.OnceWrapper? then Unsubscribe(b, t, l) else b;
    UnsubscribeKeeps(b, t, l);
    RecordKeeps(b', l);
    var c := b'.(called := b'.called + [l]);
    ServeAllKeeps(c, requests);
    var d := ServeAll(c, requests);
    forall k, u | i + 1 <= k < |snapshot| && snapshot[k].OnceWrapper? && Waiting(d, snapshot[k].uid, u)
      ensures u == t
    {
      assert Waiting(c, snapshot[k].uid, u);
      assert Waiting(b', snapshot[k].uid, u);
      assert Waiting(b, snapshot[k].uid, u);
    }
  }

  lemma {:induction false} CallEachKeeps(
    b: Bus, t: Text, snapshot: seq<Listener>, reactions: nat -> seq<Request>, i: nat)
    requires Invariant(b) && Pending(b, t, snapshot, i) && i <= |snapshot|
    ensures Invariant(CallEach(b, t, snapshot, reactions, i))
    decreases |snapshot| - i
  {
    if i < |snapshot| {
      CallKeeps(b, t, snapshot, i, reactions(i));
      CallEachKeeps(Call(b, t, snapshot[i], reactions(i)), t, snapshot, reactions, i + 1);
    }
  }

  lemma SnapshotPending(b: Bus, t: Text)
    requires Invariant(b)
    ensures Pending(b, t, ListOf(b, t), 0)
  {
    var snapshot := ListOf(b, t);
    forall k | 0 <= k < |snapshot| && snapshot[k].OnceWrapper? ensures Waiting(b, snapshot[k].uid, t) {
    }
  }

  lemma EmitKeeps(b: Bus, t: Text, reactions: nat -> seq<Request>)
    requires Invariant(b)
    ensures Invariant(Emit(b, t, reactions))
  {
    SnapshotPending(b, t);
    CallEachKeeps(b, t, ListOf(b, t), reactions, 0);
  }

  // ----- Whole runs -----

  datatype Event = Asks(request: Request) | Emits(eventType: Text, reactions: nat -> seq<Request>)

  function Step(b: Bus, e: Event): Bus {
    match e
    case Asks(r) => Serve(b, r)
    case Emits(t, reactions) => Emit(b, t, reactions)
  }

  function After(events: seq<Event>): Bus {
    if events == [] then EMPTY_BUS else Step(After(events[..|events| - 1]), events[|events| - 1])
  }

  lemma StepKeeps(b: Bus, e: Event)
    requires Invariant(b)
    ensures Invariant(Step(b, e))
  {
    match e
    case Asks(r) => ServeKeeps(b, r);
    case Emits(t, reactions) => EmitKeeps(b, t, reactions);
  }

  /** In every run of requests and emits no empty list is kept and no one-shot listener runs twice. */
  lemma {:induction false} RunKeeps(events: seq<Event>)
    ensures Invariant(After(events))
  {
    if events != [] {
      RunKeeps(events[..|events| - 1]);
      StepKeeps(After(events[..|events| - 1]), events[|events| - 1]);
    }
  }

  /** A waiting one-shot listener runs in the next emit of its type, and is subscribed nowhere afterwards. */
  lemma OnceRunsNext(b: Bus, t: Text, uid: nat, reactions: nat -> seq<Request>)
    requires Invariant(b) && Waiting(b, uid, t)
    ensures var b' := Emit(b, t, reactions);
            b.called <= b'.called && OnceWrapper(uid) in b'.called[|b.called|..] && forall u :: !Waiting(b', uid, u)
  {
    EmitDelivers(b, t, reactions);
    EmitKeeps(b, t, reactions);
    assert (b.called + ListOf(b, t))[|b.called|..] == ListOf(b, t);
  }

  predicate Clears(r: Request, t: Text) {
    r.RemoveAll? && (r.eventTypes == None || r.eventTypes == Some(t))
  }

  /** Only removeAllListeners for its type takes a waiting wrapper away: off with its callback does not. */
  lemma OnceWaitsExactly(b: Bus, t: Text, uid: nat, r: Request)
    requires Invariant(b) && uid < b.nextUid
    ensures Waiting(Serve(b, r), uid, t) <==> Waiting(b, uid, t) && !Clears(r, t)
  {
    match r
    case On(u, cb) => SubscribeKeeps(b, u, Plain(cb));
    case Off(u, cb) => UnsubscribeKeeps(b, u, Plain(cb));
    case Once(u) => SubscribeKeeps(b, u, OnceWrapper(b.nextUid));
    case RemoveAll(_) =>
  }

  predicate ClearsAny(rs: seq<Request>, t: Text) {
    exists k :: 0 <= k < |rs| && Clears(rs[k], t)
  }

  lemma ClearsAnyCons(rs: seq<Request>, t: Text)
    requires rs != []
    ensures ClearsAny(rs, t) <==> Clears(rs[0], t) || ClearsAny(rs[1..], t)
  {
    if k :| 0 <= k < |rs| && Clears(rs[k], t) {
      assert k > 0 ==> rs[1..][k - 1] == rs[k];
    }
  }

  lemma {:induction false} ServeAllWaits(b: Bus, t: Text, uid: nat, rs: seq<Request>)
    requires Invariant(b) && uid < b.nextUid
    ensures Waiting(ServeAll(b, rs), uid, t) <==> Waiting(b, uid, t) && !ClearsAny(rs, t)
    decreases |rs|
  {
    if rs != [] {
      ServeKeeps(b, rs[0]);
      OnceWaitsExactly(b, t, uid, rs[0]);
      ServeAllWaits(Serve(b, rs[0]), t, uid, rs[1..]);
      ClearsAnyCons(rs, t);
    }
  }

  /** One listener of an emit of u runs; a wrapper waiting for another type notices only what the callback clears. */
  lemma CallWaits(b: Bus, u: Text, snapshot: seq<Listener>, i: nat, requests: seq<Request>, t: Text, uid: nat)
    requires Invariant(b) && Pending(b, u, snapshot, i) && i < |snapshot| && uid < b.nextUid
    ensures uid < Call(b, u, snapshot[i], requests).nextUid
    ensures Waiting(Call(b, u, snapshot[i], requests), uid, t) ==> Waiting(b, uid, t)
    ensures t != u ==>
              (Waiting(Call(b, u, snapshot[i], requests), uid, t) <==> Waiting(b, uid, t) && !ClearsAny(requests, t))
  {
    var l := snapshot[i];
    var b' := if l.OnceWrapper? then Unsubscribe(b, u, l) else b;
    UnsubscribeKeeps(b, u, l);
    RecordKeeps(b', l);
    ServeAllKeeps(b'.(called := b'.called + [l]), requests);
    ServeAllWaits(b'.(called := b'.called + [l]), t, uid, requests);
  }

  /** Some callback from the i-th listener on clears type t. */
  predicate ReactionsClear(reactions: nat -> seq<Request>, i: nat, n: nat, t: Text) {
    exists k: nat :: i <= k < n && ClearsAny(reactions(k), t)
  }

  lemma {:induction false} CallEachWaits(
    b: Bus, u: Text, snapshot: seq<Listener>, reactions: nat -> seq<Request>, i: nat, t: Text, uid: nat)
    requires Invariant(b) && Pending(b, u, snapshot, i) && i <= |snapshot| && uid < b.nextUid
    ensures var b' := CallEach(b, u, snapshot, reactions, i);
            && uid < b'.nextUid
            && (Waiting(b', uid, t) ==> Waiting(b, uid, t))
            && (t != u ==>
                  (Waiting(b', uid, t) <==> Waiting(b, uid, t) && !ReactionsClear(reactions, i, |snapshot|, t)))
    decreases |snapshot| - i
  {
    if i < |snapshot| {
      CallKeeps(b, u, snapshot, i, reactions(i));
      CallWaits(b, u, snapshot, i, reactions(i), t, uid);
      CallEachWaits(Call(b, u, snapshot[i], reactions(i)), u, snapshot, reactions, i + 1, t, uid);
      assert ReactionsClear(reactions, i, |snapshot|, t)
        <==> ClearsAny(reactions(i), t) || ReactionsClear(reactions, i + 1, |snapshot|, t);
    }
  }

  /** An emit of another type takes a waiting wrapper away exactly if one of the callbacks it runs clears its type. */
  lemma EmitWaitsExactly(b: Bus, u: Text, reactions: nat -> seq<Request>, t: Text, uid: nat)
    requires Invariant(b) && uid < b.nextUid && t != u
    ensures Waiting(Emit(b, u, reactions), uid, t)
            <==> Waiting(b, uid, t) && !ReactionsClear(reactions, 0, |ListOf(b, u)|, t)
  {
    SnapshotPending(b, u);
    CallEachWaits(b, u, ListOf(b, u), reactions, 0, t, uid);
  }

  // ----- The fate of a one-shot subscription -----

  /** The wrapper has not run, and waits for events of type t or not at all. */
  ghost predicate Fresh(b: Bus, uid: nat, t: Text) {
    uid < b.nextUid && OnceWrapper(uid) !in b.called && forall u :: Waiting(b, uid, u) ==> u == t
  }

  /** The wrapper was made and waits no more. */
  ghost predicate Gone(b: Bus, uid: nat) {
    uid < b.nextUid && forall u :: !Waiting(b, uid, u)
  }

  /** The event, in this state, makes somebody clear type t. */
  predicate EventClears(b: Bus, e: Event, t: Text) {
    match e
    case Asks(r) => Clears(r, t)
    case Emits(u, reactions) => ReactionsClear(reactions, 0, |ListOf(b, u)|, t)
  }

  predicate IsEmitOf(e: Event, t: Text) {
    e.Emits? && e.eventType == t
  }

  lemma StepWaits(b: Bus, e: Event, t: Text, uid: nat)
    requires Invariant(b) && uid < b.nextUid
    ensures uid < Step(b, e).nextUid
    ensures Waiting(Step(b, e), uid, t) ==> Waiting(b, uid, t)
    ensures !IsEmitOf(e, t) ==> (Waiting(Step(b, e), uid, t) <==> Waiting(b, uid, t) && !EventClears(b, e, t))
  {
    match e
    case Asks(r) =>
      ServeKeeps(b, r);
      OnceWaitsExactly(b, t, uid, r);
    case Emits(u, reactions) =>
      SnapshotPending(b, u);
      CallEachWaits(b, u, ListOf(b, u), reactions, 0, t, uid);
  }

  /** A step runs a wrapper only if it waits for the type that is emitted. */
  lemma StepCalls(b: Bus, e: Event, uid: nat)
    requires Invariant(b)
    ensures OnceWrapper(uid) in Step(b, e).called
            <==> OnceWrapper(uid) in b.called || (e.Emits? && Waiting(b, uid, e.eventType))
  {
    match e
    case Asks(r) => ServeKeeps(b, r);
    case Emits(u, reactions) => EmitDelivers(b, u, reactions);
  }

  lemma StepFresh(b: Bus, e: Event, t: Text, uid: nat)
    requires Invariant(b) && Fresh(b, uid, t) && !IsEmitOf(e, t)
    ensures Fresh(Step(b, e), uid, t)
    ensures Waiting(Step(b, e), uid, t) <==> Waiting(b, uid, t) && !EventClears(b, e, t)
  {
    StepCalls(b, e, uid);
    forall u | Waiting(Step(b, e), uid, u) ensures u == t {
      StepWaits(b, e, u, uid);
    }
    StepWaits(b, e, t, uid);
  }

  lemma StepGone(b: Bus, e: Event, uid: nat)
    requires Invariant(b) && Gone(b, uid)
    ensures Gone(Step(b, e), uid)
    ensures OnceWrapper(uid) in Step(b, e).called <==> OnceWrapper(uid) in b.called
  {
    StepCalls(b, e, uid);
    StepWaits(b, e, [], uid);
    forall u ensures !Waiting(Step(b, e), uid, u) {
      StepWaits(b, e, u, uid);
    }
  }

  /** No event of more, in the state in which it happens, clears type t. */
  ghost predicate Spared(start: seq<Event>, more: seq<Event>, t: Text) {
    more == []
    || (Spared(start, more[..|more| - 1], t)
        && !EventClears(After(start + more[..|more| - 1]), more[|more| - 1], t))
  }

  ghost predicate NoEmit(events: seq<Event>, t: Text) {
    forall n :: 0 <= n < |events| ==> !IsEmitOf(events[n], t)
  }

  lemma AfterSnoc(events: seq<Event>, e: Event)
    ensures After(events + [e]) == Step(After(events), e)
  {
    assert (events + [e])[..|events|] == events;
  }

  /** While its type is not emitted the wrapper does not run, and it waits as long as nobody clears the type. */
  lemma {:induction false} OnceWaitsOn(start: seq<Event>, more: seq<Event>, t: Text, uid: nat)
    requires Fresh(After(start), uid, t) && Waiting(After(start), uid, t) && NoEmit(more, t)
    ensures Fresh(After(start + more), uid, t)
    ensures Waiting(After(start + more), uid, t) <==> Spared(start, more, t)
    decreases |more|
  {
    if more == [] {
      assert start + more == start;
    } else {
      var init, e := more[..|more| - 1], more[|more| - 1];
      OnceWaitsOn(start, init, t, uid);
      RunKeeps(start + init);
      StepFresh(After(start + init), e, t, uid);
      AfterSnoc(start + init, e);
      assert start + more == start + init + [e];
    }
  }

  lemma {:induction false} GoneForever(start: seq<Event>, more: seq<Event>, uid: nat)
    requires Gone(After(start), uid)
    ensures Gone(After(start + more), uid)
    ensures OnceWrapper(uid) in After(start + more).called <==> OnceWrapper(uid) in After(start).called
    decreases |more|
  {
    if more == [] {
      assert start + more == start;
    } else {
      var init, e := more[..|more| - 1], more[|more| - 1];
      GoneForever(start, init, uid);
      RunKeeps(start + init);
      StepGone(After(start + init), e, uid);
      AfterSnoc(start + init, e);
      assert start + more == start + init + [e];
    }
  }

  lemma OnceStarts(before: seq<Event>, t: Text)
    ensures var b, uid := After(before + [Asks(Once(t))]), After(before).nextUid;
            Fresh(b, uid, t) && Waiting(b, uid, t)
  {
    var b, uid := After(before), After(before).nextUid;
    RunKeeps(before);
    AfterSnoc(before, Asks(Once(t)));
    SubscribeKeeps(b, t, OnceWrapper(uid));
    forall u | Waiting(Serve(b, Once(t)), uid, u) ensures u == t {
      assert Waiting(Subscribe(b, t, OnceWrapper(uid)), uid, u);
    }
  }

  /** The emit of its type runs a fresh wrapper exactly if it waits, and afterwards it is gone. */
  lemma EmitEndsWait(b: Bus, t: Text, uid: nat, reactions: nat -> seq<Request>)
    requires Invariant(b) && Fresh(b, uid, t)
    ensures var b' := Emit(b, t, reactions);
            Gone(b', uid) && (OnceWrapper(uid) in b'.called <==> Waiting(b, uid, t))
  {
    var e := Emits(t, reactions);
    StepCalls(b, e, uid);
    StepWaits(b, e, t, uid);
    if Waiting(b, uid, t) {
      OnceRunsNext(b, t, uid, reactions);
    } else {
      forall u ensures !Waiting(Step(b, e), uid, u) {
        StepWaits(b, e, u, uid);
      }
    }
  }

  lemma CalledOnce(ls: seq<Listener>, l: Listener)
    requires DistinctWrappers(ls) && l.OnceWrapper?
    ensures multiset(ls)[l] == if l in ls then 1 else 0
    decreases |ls|
  {
    if ls != [] {
      var init, last := ls[..|ls| - 1], ls[|ls| - 1];
      CalledOnce(init, l);
      assert ls == init + [last];
      assert last == l ==> l !in init;
    }
  }

  /**
   * Once means once. Take any run that subscribes a one-shot listener to t, then does anything but emit t,
   * then emits t, and then does anything at all. The listener has not run before that emit, runs in it
   * exactly if nobody has cleared the type since the subscription, and never runs again.
   */
  lemma OnceFate(before: seq<Event>, t: Text, mid: seq<Event>, reactions: nat -> seq<Request>, after: seq<Event>)
    requires NoEmit(mid, t)
    ensures var start := before + [Asks(Once(t))];
            var once := OnceWrapper(After(before).nextUid);
            var emitted := start + mid + [Emits(t, reactions)];
            var times := if Spared(start, mid, t) then 1 else 0;
            && multiset(After(start + mid).called)[once] == 0
            && multiset(After(emitted).called)[once] == times
            && multiset(After(emitted + after).called)[once] == times
  {
    var start, uid := before + [Asks(Once(t))], After(before).nextUid;
    var emitted := start + mid + [Emits(t, reactions)];
    OnceStarts(before, t);
    OnceWaitsOn(start, mid, t, uid);
    RunKeeps(start + mid);
    AfterSnoc(start + mid, Emits(t, reactions));
    EmitEndsWait(After(start + mid), t, uid, reactions);
    GoneForever(emitted, after, uid);
    RunKeeps(emitted);
    RunKeeps(emitted + after);
    CalledOnce(After(start + mid).called, OnceWrapper(uid));
    CalledOnce(After(emitted).called, OnceWrapper(uid));
    CalledOnce(After(emitted + after).called, OnceWrapper(uid));
  }

  // ----- What a request does -----

  /**
   * on and once add to the end of the list; off takes out the first equal callback and drops an empty list;
   * removeAllListeners drops one list or all. Other lists, and the record of calls, stay.
   */
  lemma ServeMeans(b: Bus, r: Request)
    requires Invariant(b)
    ensures Serve(b, r).called == b.called
    ensures match r
            case On(t, cb) =>
              Serve(b, r).listeners == b.listeners[t := (if t in b.listeners then b.listeners[t] else []) + [Plain(cb)]]
            case Once(t) =>
              && Serve(b, r).nextUid == b.nextUid + 1
              && Serve(b, r).listeners
                 == b.listeners[t := (if t in b.listeners then b.listeners[t] else []) + [OnceWrapper(b.nextUid)]]
            case Off(t, cb) =>
              && (t in b.listeners && Plain(cb) in b.listeners[t] ==>
                    exists i :: TakenOut(b.listeners, Serve(b, r).listeners, t, cb, i))
              && (!(t in b.listeners && Plain(cb) in b.listeners[t]) ==> Serve(b, r) == b)
            case RemoveAll(None) => Serve(b, r).listeners == map[]
            case RemoveAll(Some(t)) => Serve(b, r).listeners == b.listeners - {t}
  {
    if r.Off? && r.eventType in b.listeners {
      var ls, l := b.listeners[r.eventType], Plain(r.callback);
      if l in ls {
        var i := FirstIndex(ls, l);
        SpliceFirst(ls, l, i);
        assert TakenOut(b.listeners, Serve(b, r).listeners, r.eventType, r.callback, i);
      } else {
        RemoveAbsent(ls, l);
        assert b.listeners[r.eventType := ls] == b.listeners;
      }
    }
  }

  /** The callback was first at index i of its list, and that place is gone. */
  ghost predicate TakenOut(
    before: map<Text, seq<Listener>>, after: map<Text, seq<Listener>>, t: Text, cb: nat, i: int)
  {
    && t in before && 0 <= i < |before[t]| && before[t][i] == Plain(cb) && Plain(cb) !in before[t][..i]
    && var left := before[t][..i] + before[t][i + 1..];
       after == if left == [] then before - {t} else before[t := left]
  }

  lemma {:induction false} FirstIndex(ls: seq<Listener>, l: Listener) returns (i: nat)
    requires l in ls
    ensures i < |ls| && ls[i] == l && l !in ls[..i]
  {
    if ls[0] == l {
      i := 0;
    } else {
      i := FirstIndex(ls[1..], l);
      assert ls[..i + 1] == [ls[0]] + ls[1..][..i];
      i := i + 1;
    }
  }

  // ----- The object -----

  /** Splicing out the first index of a listener removes its first occurrence. */
  lemma {:induction false} SpliceFirst(ls: seq<Listener>, l: Listener, i: nat)
    requires i < |ls| && ls[i] == l && l !in ls[..i]
    ensures ls[..i] + ls[i + 1..] == RemoveFirst(ls, l)
  {
    if i > 0 {
      assert ls[0] in ls[..i] && l !in ls[1..][..i - 1];
      SpliceFirst(ls[1..], l, i - 1);
      assert ls[..i] + ls[i + 1..] == [ls[0]] + (ls[1..][..i - 1] + ls[1..][i..]);
    }
  }

  lemma {:induction false} RemoveAbsent(ls: seq<Listener>, l: Listener)
    requires l !in ls
    ensures RemoveFirst(ls, l) == ls
  {
    if ls != [] {
      RemoveAbsent(ls[1..], l);
    }
  }

  class AppEventBus {
    var listeners: map<Text, seq<Listener>>
    var nextUid: nat
    ghost var called: seq<Listener>

    ghost function Snapshot(): Bus
      reads this
    {
      Bus(listeners, nextUid, called)
    }

    constructor ()
      ensures Snapshot() == EMPTY_BUS
    {
      listeners, nextUid, called := map[], 0, [];
    }

    method Add(t: Text, l: Listener)
      modifies this`listeners
      ensures Snapshot() == Subscribe(old(Snapshot()), t, l)
    {
      if t !in listeners {
        listeners := listeners[t := []];
      }
      listeners := listeners[t := listeners[t] + [l]];
    }

    /** off, by the index of the first equal listener. */
    method Drop(t: Text, l: Listener)
      requires t in listeners ==> listeners[t] != []
      modifies this`listeners
      ensures Snapshot() == Unsubscribe(old(Snapshot()), t, l)
    {
      if t !in listeners {
        return;
      }
      var list := listeners[t];
      var idx := 0;
      while idx < |list| && list[idx] != l
        invariant 0 <= idx <= |list| && l !in list[..idx]
      {
        idx := idx + 1;
      }
      if idx < |list| {
        SpliceFirst(list, l, idx);
        list := list[..idx] + list[idx + 1..];
      } else {
        assert list[..idx] == list;
        RemoveAbsent(list, l);
      }
      listeners := if list == [] then listeners - {t} else listeners[t := list];
    }

    /** on, off, once and removeAllListeners. */
    method Ask(r: Request)
      requires Invariant(Snapshot())
      modifies this`listeners, this`nextUid
      ensures Snapshot() == Serve(old(Snapshot()), r) && Invariant(Snapshot())
    {
      ServeKeeps(Snapshot(), r);
      match r {
        case On(t, cb) => Add(t, Plain(cb));
        case Off(t, cb) => Drop(t, Plain(cb));
        case Once(t) =>
          Add(t, OnceWrapper(nextUid));
          nextUid := nextUid + 1;
        case RemoveAll(ts) => listeners := if ts.Some? then listeners - {ts.value} else map[];
      }
    }

    /** What one listener does when it is run as number i of an emit. */
    method RunListener(t: Text, ghost snapshot: seq<Listener>, i: nat, l: Listener, requests: seq<Request>)
      requires i < |snapshot| && snapshot[i] == l
      requires Invariant(Snapshot()) && Pending(Snapshot(), t, snapshot, i)
      modifies this
      ensures Snapshot() == Call(old(Snapshot()), t, l, requests)
      ensures Invariant(Snapshot()) && Pending(Snapshot(), t, snapshot, i + 1)
    {
      CallKeeps(Snapshot(), t, snapshot, i, requests);
      ghost var b' := if l.OnceWrapper? then Unsubscribe(Snapshot(), t, l) else Snapshot();
      UnsubscribeKeeps(Snapshot(), t, l);
      RecordKeeps(b', l);
      if l.OnceWrapper? {
        Drop(t, l);
      }
      called := called + [l];
      ghost var start := Snapshot();
      for k := 0 to |requests|
        invariant Invariant(Snapshot()) && ServeAll(start, requests) == ServeAll(Snapshot(), requests[k..])
      {
        Ask(requests[k]);
      }
    }

    /** emit: iterates over a copy of the list while the callbacks change the bus. */
    method EmitEvent(t: Text, reactions: nat -> seq<Request>)
      requires Invariant(Snapshot())
      modifies this
      ensures Snapshot() == Emit(old(Snapshot()), t, reactions) && Invariant(Snapshot())
    {
      if t !in listeners {
        return;
      }
      var copy := listeners[t];
      SnapshotPending(Snapshot(), t);
      for i := 0 to |copy|
        invariant Invariant(Snapshot()) && Pending(Snapshot(), t, copy, i)
        invariant Emit(old(Snapshot()), t, reactions) == CallEach(Snapshot(), t, copy, reactions, i)
      {
        RunListener(t, copy, i, copy[i], reactions(i));
      }
    }
  }
}
