/**
 * Emits from inside event callbacks. Every emit in progress is a frame on a stack; between two listeners of
 * the innermost frame, the running callback may ask anything of the bus and begin further emits.
 */
module EventNesting {
  import opened JsText
  import opened EventBus

  /** An emit in progress: what is left to call of its copy of the listeners. */
  datatype Frame = Frame(eventType: Text, left: seq<Listener>)

  /** The innermost frame is the last one. log lists every listener call, oldest first; bus.called is not used. */
  datatype Machine = Machine(bus: Bus, frames: seq<Frame>, log: seq<Listener>)

  const IDLE := Machine(EMPTY_BUS, [], [])

  datatype Move = Ask(request: Request) | Begin(eventType: Text) | Next | Return

  predicate Enabled(m: Machine, v: Move) {
    match v
    case Ask(_) => true
    case Begin(_) => true
    case Next => m.frames != [] && m.frames[|m.frames| - 1].left != []
    case Return => m.frames != [] && m.frames[|m.frames| - 1].left == []
  }

  /** The bus after a listener of an emit of t has started: a wrapper takes itself off. */
  function Started(b: Bus, t: Text, l: Listener): Bus {
    if l.OnceWrapper? then Unsubscribe(b, t, l) else b
  }

  function Moved(m: Machine, v: Move): Machine
    requires Enabled(m, v)
  {
    match v
    case Ask(r) => m.(bus := Serve(m.bus, r))
    case Begin(t) => m.(frames := m.frames + [Frame(t, ListOf(m.bus, t))])
    case Next =>
      var outer, top := m.frames[..|m.frames| - 1], m.frames[|m.frames| - 1];
      var l := top.left[0];
      Machine(Started(m.bus, top.eventType, l), outer + [top.(left := top.left[1..])], m.log + [l])
    case Return => m.(frames := m.frames[..|m.frames| - 1])
  }

  /** Any sequence of moves by client code and callbacks. */
  predicate IsRun(run: seq<Move>)
    decreases |run|, 0
  {
    run == [] || (IsRun(run[..|run| - 1]) && Enabled(Reached(run[..|run| - 1]), run[|run| - 1]))
  }

  function Reached(run: seq<Move>): Machine
    requires IsRun(run)
    decreases |run|, 1
  {
    if run == [] then IDLE else Moved(Reached(run[..|run| - 1]), run[|run| - 1])
  }

  // ----- What every move keeps -----

  ghost predicate FrameOk(b: Bus, f: Frame) {
    && DistinctWrappers(f.left)
    && forall l :: l in f.left && l.OnceWrapper? ==>
         l.uid < b.nextUid && forall u :: Waiting(b, l.uid, u) ==> u == f.eventType
  }

  /** A wrapper that has been called waits no more. */
  ghost predicate LogOk(b: Bus, log: seq<Listener>) {
    forall l :: l in log && l.OnceWrapper? ==> Gone(b, l.uid)
  }

  ghost predicate Sound(m: Machine) {
    && Invariant(m.bus) && m.bus.called == [] && LogOk(m.bus, m.log)
    && forall k :: 0 <= k < |m.frames| ==> FrameOk(m.bus, m.frames[k])
  }

  /** The bus makes new wrappers and takes subscriptions away, but never subscribes an old wrapper again. */
  ghost predicate Evolves(b: Bus, c: Bus) {
    && b.nextUid <= c.nextUid
    && forall uid: nat, u :: uid < b.nextUid && Waiting(c, uid, u) ==> Waiting(b, uid, u)
  }

  lemma EvolvesKeeps(b: Bus, c: Bus, frames: seq<Frame>, log: seq<Listener>)
    requires Evolves(b, c) && LogOk(b, log) && forall k :: 0 <= k < |frames| ==> FrameOk(b, frames[k])
    ensures LogOk(c, log) && forall k :: 0 <= k < |frames| ==> FrameOk(c, frames[k])
  {
  }

  lemma NextSound(m: Machine)
    requires Sound(m) && Enabled(m, Next)
    ensures Sound(Moved(m, Next))
  {
    var top := m.frames[|m.frames| - 1];
    var l := top.left[0];
    var c := Started(m.bus, top.eventType, l);
    UnsubscribeKeeps(m.bus, top.eventType, l);
    assert Evolves(m.bus, c);
    EvolvesKeeps(m.bus, c, m.frames, m.log);
    assert l in top.left;
    assert l.OnceWrapper? ==> Gone(c, l.uid);
  }

  lemma MoveSound(m: Machine, v: Move)
    requires Sound(m) && Enabled(m, v)
    ensures Sound(Moved(m, v))
  {
    match v
    case Ask(r) =>
      ServeKeeps(m.bus, r);
      EvolvesKeeps(m.bus, Serve(m.bus, r), m.frames, m.log);
    case Begin(t) =>
      SnapshotPending(m.bus, t);
    case Next =>
      NextSound(m);
    case Return =>
  }

  lemma {:induction false} RunSound(run: seq<Move>)
    requires IsRun(run)
    ensures Sound(Reached(run))
  {
    if run != [] {
      RunSound(run[..|run| - 1]);
      MoveSound(Reached(run[..|run| - 1]), run[|run| - 1]);
    }
  }

  /** A waiting wrapper waits on until its type is cleared or it is called, in whatever emit. */
  lemma WaitsExactly(m: Machine, v: Move, t: Text, uid: nat)
    requires Sound(m) && Enabled(m, v) && uid < m.bus.nextUid
    ensures Waiting(Moved(m, v).bus, uid, t)
            <==> && Waiting(m.bus, uid, t)
                 && !(v.Ask? && Clears(v.request, t))
                 && !(v.Next? && m.frames[|m.frames| - 1].left[0] == OnceWrapper(uid))
  {
    match v
    case Ask(r) => OnceWaitsExactly(m.bus, t, uid, r);
    case Begin(_) =>
    case Next =>
      var top := m.frames[|m.frames| - 1];
      assert FrameOk(m.bus, top) && top.left[0] in top.left;
      UnsubscribeKeeps(m.bus, top.eventType, top.left[0]);
    case Return =>
  }

  // ----- How often a wrapper is called -----

  function Calls(ls: seq<Listener>, uid: nat): nat {
    multiset(ls)[OnceWrapper(uid)]
  }

  /** The calls that the emits in progress have still to make. */
  function Due(frames: seq<Frame>, uid: nat): nat {
    if frames == [] then 0 else Due(frames[..|frames| - 1], uid) + Calls(frames[|frames| - 1].left, uid)
  }

  /** The emits that began while the wrapper was waiting for them. */
  function Begun(run: seq<Move>, uid: nat): nat
    requires IsRun(run)
  {
    if run == [] then 0
    else
      var m, v := Reached(run[..|run| - 1]), run[|run| - 1];
      Begun(run[..|run| - 1], uid) + (if v.Begin? && Waiting(m.bus, uid, v.eventType) then 1 else 0)
  }

  lemma DueSnoc(outer: seq<Frame>, f: Frame, uid: nat)
    ensures Due(outer + [f], uid) == Due(outer, uid) + Calls(f.left, uid)
  {
    assert (outer + [f])[..|outer|] == outer;
  }

  lemma NextCounts(m: Machine, uid: nat)
    requires Enabled(m, Next)
    ensures var m' := Moved(m, Next);
            Calls(m'.log, uid) + Due(m'.frames, uid) == Calls(m.log, uid) + Due(m.frames, uid)
  {
    var outer, top := m.frames[..|m.frames| - 1], m.frames[|m.frames| - 1];
    assert m.frames == outer + [top];
    DueSnoc(outer, top, uid);
    DueSnoc(outer, top.(left := top.left[1..]), uid);
    assert top.left == [top.left[0]] + top.left[1..];
  }

  lemma BeginCounts(m: Machine, t: Text, uid: nat)
    requires Sound(m)
    ensures Due(Moved(m, Begin(t)).frames, uid) == Due(m.frames, uid) + (if Waiting(m.bus, uid, t) then 1 else 0)
  {
    DueSnoc(m.frames, Frame(t, ListOf(m.bus, t)), uid);
    CalledOnce(ListOf(m.bus, t), OnceWrapper(uid));
  }

  /** Each emit that begins while a wrapper waits accounts for exactly one call of it, made or still due. */
  lemma {:induction false} CallsCounted(run: seq<Move>, uid: nat)
    requires IsRun(run)
    ensures Calls(Reached(run).log, uid) + Due(Reached(run).frames, uid) == Begun(run, uid)
  {
    RunSound(run);
    if run != [] {
      var init, v := run[..|run| - 1], run[|run| - 1];
      CallsCounted(init, uid);
      match v
      case Ask(_) =>
      case Begin(t) => BeginCounts(Reached(init), t, uid);
      case Next => NextCounts(Reached(init), uid);
      case Return =>
    }
  }

  /** An emit begins for which the wrapper waits, while an emit that began earlier has still to call it. */
  predicate Overtakes(m: Machine, v: Move, uid: nat) {
    v.Begin? && Waiting(m.bus, uid, v.eventType) && Due(m.frames, uid) > 0
  }

  predicate EverOvertaken(run: seq<Move>, uid: nat)
    requires IsRun(run)
  {
    run != []
    && (EverOvertaken(run[..|run| - 1], uid) || Overtakes(Reached(run[..|run| - 1]), run[|run| - 1], uid))
  }

  /**
   * When no emit is in progress, a one-shot listener has been called once for each emit that began while it
   * waited; that is more than once exactly if one of them began inside another before the listener's turn.
   */
  lemma {:induction false} TwiceExactly(run: seq<Move>, uid: nat)
    requires IsRun(run)
    ensures Begun(run, uid) > 1 <==> EverOvertaken(run, uid)
    ensures Reached(run).frames == [] ==> Calls(Reached(run).log, uid) == Begun(run, uid)
  {
    CallsCounted(run, uid);
    if run != [] {
      var init, v := run[..|run| - 1], run[|run| - 1];
      TwiceExactly(init, uid);
      CallsCounted(init, uid);
      RunSound(init);
      var m := Reached(init);
      if v.Begin? && Waiting(m.bus, uid, v.eventType) {
        assert OnceWrapper(uid) !in m.log;
      }
    }
  }

  // ----- The guard -----

  /** One of these emits in progress is an emit of t. */
  predicate Inside(frames: seq<Frame>, t: Text) {
    exists k :: 0 <= k < |frames| && frames[k].eventType == t
  }

  /** No emit of a type begins inside another emit of that type. */
  predicate NeverNests(run: seq<Move>)
    requires IsRun(run)
  {
    run != [] ==>
      && NeverNests(run[..|run| - 1])
      && (run[|run| - 1].Begin? ==> !Inside(Reached(run[..|run| - 1]).frames, run[|run| - 1].eventType))
  }

  lemma {:induction false} DueSomewhere(frames: seq<Frame>, uid: nat) returns (k: nat)
    requires Due(frames, uid) > 0
    ensures k < |frames| && OnceWrapper(uid) in frames[k].left
  {
    if Calls(frames[|frames| - 1].left, uid) > 0 {
      k := |frames| - 1;
    } else {
      k := DueSomewhere(frames[..|frames| - 1], uid);
    }
  }

  /** A call that is due is due in an emit of the type for which the wrapper waits. */
  lemma DueInside(m: Machine, t: Text, uid: nat)
    requires Sound(m) && Waiting(m.bus, uid, t) && Due(m.frames, uid) > 0
    ensures Inside(m.frames, t)
  {
    var k := DueSomewhere(m.frames, uid);
    assert FrameOk(m.bus, m.frames[k]);
  }

  lemma {:induction false} NeverOvertaken(run: seq<Move>, uid: nat)
    requires IsRun(run) && NeverNests(run)
    ensures !EverOvertaken(run, uid)
  {
    if run != [] {
      var m, v := Reached(run[..|run| - 1]), run[|run| - 1];
      NeverOvertaken(run[..|run| - 1], uid);
      RunSound(run[..|run| - 1]);
      if Overtakes(m, v, uid) {
        DueInside(m, v.eventType, uid);
      }
    }
  }

  /** Without such nesting once means once, however emits of different types are nested. */
  lemma UnnestedOnce(run: seq<Move>, uid: nat)
    requires IsRun(run) && NeverNests(run)
    ensures Calls(Reached(run).log, uid) <= 1
  {
    TwiceExactly(run, uid);
    CallsCounted(run, uid);
    NeverOvertaken(run, uid);
  }

  // ----- A listener that is called twice -----

  lemma MoveSnoc(run: seq<Move>, v: Move)
    requires IsRun(run) && Enabled(Reached(run), v)
    ensures IsRun(run + [v]) && Reached(run + [v]) == Moved(Reached(run), v)
  {
    assert (run + [v])[..|run|] == run;
  }

  /** A bus on which one list is subscribed. */
  function OneList(t: Text, ls: seq<Listener>): Bus {
    Bus(map[t := ls], 1, [])
  }

  lemma TwiceSubscribed(t: Text, cb: nat)
    ensures var run := [Ask(On(t, cb)), Ask(Once(t))];
            IsRun(run) && Reached(run) == Machine(OneList(t, [Plain(cb), OnceWrapper(0)]), [], [])
  {
    var first := Ask(On(t, cb));
    MoveSnoc([], first);
    assert [] + [first] == [first];
    assert Reached([]) == IDLE;
    assert ListOf(EMPTY_BUS, t) + [Plain(cb)] == [Plain(cb)];
    MoveSnoc([first], Ask(Once(t)));
    assert [first] + [Ask(Once(t))] == [first, Ask(Once(t))];
    assert [Plain(cb)] + [OnceWrapper(0)] == [Plain(cb), OnceWrapper(0)];
    OneListUpdate(t, [Plain(cb)], [Plain(cb), OnceWrapper(0)]);
  }

  lemma OneListUpdate(t: Text, ls: seq<Listener>, more: seq<Listener>)
    ensures (map[t := ls])[t := more] == map[t := more]
  {
  }

  /** An emit begins and runs the plain callback. */
  lemma TwiceBegun(run: seq<Move>, t: Text, cb: nat, frames: seq<Frame>, log: seq<Listener>)
    requires IsRun(run) && Reached(run) == Machine(OneList(t, [Plain(cb), OnceWrapper(0)]), frames, log)
    ensures IsRun(run + [Begin(t), Next])
    ensures Reached(run + [Begin(t), Next])
         == Machine(OneList(t, [Plain(cb), OnceWrapper(0)]), frames + [Frame(t, [OnceWrapper(0)])], log + [Plain(cb)])
  {
    MoveSnoc(run, Begin(t));
    MoveSnoc(run + [Begin(t)], Next);
    assert run + [Begin(t), Next] == run + [Begin(t)] + [Next];
  }

  /** An emit calls the wrapper, subscribed or not, and returns. */
  lemma TwiceEnded(run: seq<Move>, t: Text, cb: nat, ls: seq<Listener>, frames: seq<Frame>, log: seq<Listener>)
    requires ls == [Plain(cb), OnceWrapper(0)] || ls == [Plain(cb)]
    requires IsRun(run) && Reached(run) == Machine(OneList(t, ls), frames + [Frame(t, [OnceWrapper(0)])], log)
    ensures IsRun(run + [Next, Return])
    ensures Reached(run + [Next, Return]) == Machine(OneList(t, [Plain(cb)]), frames, log + [OnceWrapper(0)])
  {
    MoveSnoc(run, Next);
    MoveSnoc(run + [Next], Return);
    assert [Plain(cb), OnceWrapper(0)][1..] == [OnceWrapper(0)] && [Plain(cb)][1..] == [];
    assert RemoveFirst([OnceWrapper(0)], OnceWrapper(0)) == [];
    assert RemoveFirst(ls, OnceWrapper(0)) == [Plain(cb)];
    OneListUpdate(t, ls, [Plain(cb)]);
    assert run + [Next, Return] == run + [Next] + [Return];
  }

  /** The inner emit, run by the callback, calls the wrapper that is still due in the outer one. */
  lemma TwiceInner(run: seq<Move>, t: Text, cb: nat)
    requires IsRun(run)
    requires Reached(run) == Machine(OneList(t, [Plain(cb), OnceWrapper(0)]), [Frame(t, [OnceWrapper(0)])], [Plain(cb)])
    ensures IsRun(run + [Begin(t), Next] + [Next, Return])
    ensures Reached(run + [Begin(t), Next] + [Next, Return])
         == Machine(OneList(t, [Plain(cb)]), [Frame(t, [OnceWrapper(0)])], [Plain(cb), Plain(cb), OnceWrapper(0)])
  {
    TwiceBegun(run, t, cb, [Frame(t, [OnceWrapper(0)])], [Plain(cb)]);
    TwiceEnded(run + [Begin(t), Next], t, cb, [Plain(cb), OnceWrapper(0)], [Frame(t, [OnceWrapper(0)])],
               [Plain(cb), Plain(cb)]);
  }

  lemma TwiceOuter(run: seq<Move>, t: Text, cb: nat)
    requires IsRun(run) && Reached(run) == Machine(OneList(t, [Plain(cb), OnceWrapper(0)]), [], [])
    ensures var all := run + [Begin(t), Next] + [Begin(t), Next] + [Next, Return] + [Next, Return];
            && IsRun(all) && Reached(all).frames == []
            && Reached(all).log == [Plain(cb), Plain(cb), OnceWrapper(0), OnceWrapper(0)]
  {
    var outer := run + [Begin(t), Next];
    TwiceBegun(run, t, cb, [], []);
    TwiceInner(outer, t, cb);
    TwiceEnded(outer + [Begin(t), Next] + [Next, Return], t, cb, [Plain(cb)], [],
               [Plain(cb), Plain(cb), OnceWrapper(0)]);
  }

  /** on(t, cb); once(t, f); emit(t), in which cb emits t again: f is called twice. */
  lemma CalledTwice(t: Text, cb: nat)
    ensures var run := [Ask(On(t, cb)), Ask(Once(t))]
                       + [Begin(t), Next] + [Begin(t), Next] + [Next, Return] + [Next, Return];
            && IsRun(run) && Reached(run).frames == []
            && Reached(run).log == [Plain(cb), Plain(cb), OnceWrapper(0), OnceWrapper(0)]
  {
    TwiceSubscribed(t, cb);
    TwiceOuter([Ask(On(t, cb)), Ask(Once(t))], t, cb);
  }

  // ----- Emits without nesting -----

  /** The moves of one callback that makes these requests. */
  function Asks(rs: seq<Request>): seq<Move> {
    seq(|rs|, i requires 0 <= i < |rs| => Ask(rs[i]))
  }

  function CallMoves(n: nat, reactions: nat -> seq<Request>, i: nat): seq<Move>
    requires i <= n
    decreases n - i
  {
    if i == n then [] else ([Next] + Asks(reactions(i))) + CallMoves(n, reactions, i + 1)
  }

  /** The same bus with an empty record of calls. */
  function Unlogged(b: Bus): Bus {
    b.(called := [])
  }

  lemma {:induction false} ServeAllUnlogged(b: Bus, rs: seq<Request>)
    ensures ServeAll(Unlogged(b), rs) == Unlogged(ServeAll(b, rs))
    decreases |rs|
  {
    if rs != [] {
      ServeAllUnlogged(Serve(b, rs[0]), rs[1..]);
      assert Serve(Unlogged(b), rs[0]) == Unlogged(Serve(b, rs[0]));
    }
  }

  lemma AsksCons(rs: seq<Request>)
    requires rs != []
    ensures Asks(rs) == [Ask(rs[0])] + Asks(rs[1..])
  {
  }

  lemma {:induction false} AsksServe(run: seq<Move>, rs: seq<Request>)
    requires IsRun(run)
    ensures IsRun(run + Asks(rs))
    ensures Reached(run + Asks(rs)) == Reached(run).(bus := ServeAll(Reached(run).bus, rs))
    decreases |rs|
  {
    if rs == [] {
      assert run + Asks(rs) == run;
    } else {
      MoveSnoc(run, Ask(rs[0]));
      AsksServe(run + [Ask(rs[0])], rs[1..]);
      AsksCons(rs);
      Assoc(run, [Ask(rs[0])], Asks(rs[1..]));
    }
  }

  /** One listener with its requests. */
  lemma CallRefined(run: seq<Move>, b: Bus, outer: seq<Frame>, t: Text, left: seq<Listener>, rs: seq<Request>)
    requires IsRun(run) && left != []
    requires Reached(run).bus == Unlogged(b) && Reached(run).frames == outer + [Frame(t, left)]
    ensures var run' := run + ([Next] + Asks(rs));
            IsRun(run') && Reached(run')
                           == Machine(Unlogged(Call(b, t, left[0], rs)), outer + [Frame(t, left[1..])],
                                      Reached(run).log + [left[0]])
  {
    MoveSnoc(run, Next);
    AsksServe(run + [Next], rs);
    assert run + ([Next] + Asks(rs)) == run + [Next] + Asks(rs);
    var c := Started(b, t, left[0]).(called := b.called + [left[0]]);
    ServeAllUnlogged(c, rs);
    assert Unlogged(c) == Started(Unlogged(b), t, left[0]);
  }

  lemma {:induction false} CallEachRefined(
    run: seq<Move>, b: Bus, outer: seq<Frame>, t: Text, snapshot: seq<Listener>, reactions: nat -> seq<Request>, i: nat)
    requires IsRun(run) && i <= |snapshot|
    requires Reached(run).bus == Unlogged(b) && Reached(run).frames == outer + [Frame(t, snapshot[i..])]
    ensures var run' := run + CallMoves(|snapshot|, reactions, i);
            IsRun(run') && Reached(run')
                           == Machine(Unlogged(CallEach(b, t, snapshot, reactions, i)), outer + [Frame(t, [])],
                                      Reached(run).log + snapshot[i..])
    decreases |snapshot| - i
  {
    if i == |snapshot| {
      assert run + CallMoves(|snapshot|, reactions, i) == run;
    } else {
      var call := [Next] + Asks(reactions(i));
      CallRefined(run, b, outer, t, snapshot[i..], reactions(i));
      assert snapshot[i..][1..] == snapshot[i + 1..];
      CallEachRefined(run + call, Call(b, t, snapshot[i], reactions(i)), outer, t, snapshot, reactions, i + 1);
      Assoc(run, call, CallMoves(|snapshot|, reactions, i + 1));
      assert snapshot[i..] == [snapshot[i]] + snapshot[i + 1..];
      Assoc(Reached(run).log, [snapshot[i]], snapshot[i + 1..]);
    }
  }

  /** An emit whose callbacks do not emit makes the moves of EventBus.Emit, wherever it begins. */
  lemma EmitRefined(run: seq<Move>, b: Bus, t: Text, reactions: nat -> seq<Request>)
    requires IsRun(run) && Reached(run).bus == Unlogged(b)
    ensures var run' := run + [Begin(t)] + CallMoves(|ListOf(b, t)|, reactions, 0) + [Return];
            && IsRun(run') && Reached(run').bus == Unlogged(Emit(b, t, reactions))
            && Reached(run').frames == Reached(run).frames
            && Reached(run').log == Reached(run).log + ListOf(b, t)
  {
    var ls := ListOf(b, t);
    MoveSnoc(run, Begin(t));
    assert ls[0..] == ls;
    CallEachRefined(run + [Begin(t)], b, Reached(run).frames, t, ls, reactions, 0);
    MoveSnoc(run + [Begin(t)] + CallMoves(|ls|, reactions, 0), Return);
  }
}
