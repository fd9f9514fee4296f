/** AppInstance and AppRegistry: the app lifecycle and what observers of a registry can know. */
module AppRegistry {
  import opened JsText
  import opened CanonicalJson

  datatype AppManifest = AppManifest(id: Text, name: Text, version: Text, author: Text, entryPoint: Text)

  /** The version has the form x.y.z with decimal parts. */
  predicate IsValidVersion(v: Text) {
    exists i, j :: 0 < i < |v| && i + 1 < j < |v| - 1 && v[i] == 46 && v[j] == 46
                   && forall k :: 0 <= k < |v| && k != i && k != j ==> IsDigit(v[k])
  }

  predicate Validates(m: AppManifest) {
    m.id != [] && m.name != [] && m.version != [] && m.entryPoint != [] && IsValidVersion(m.version)
  }

  datatype AppState = Installed | Starting | Running | Paused | Stopping | Stopped | Failed

  // ----- Lifecycle of one instance -----

  datatype Transition = DoStart | DoPause | DoStop | DoSetError | DoOther

  /** The state after a method call; a call that throws leaves the state alone. */
  function Next(s: AppState, t: Transition): AppState {
    match t
    case DoStart => if s == Installed || s == Paused then Running else s
    case DoPause => if s == Running then Paused else s
    case DoStop => Stopped
    case DoSetError => Failed
    case DoOther => s
  }

  function NextAll(s: AppState, ts: seq<Transition>): AppState
    decreases |ts|
  {
    if ts == [] then s else NextAll(Next(s, ts[0]), ts[1..])
  }

  predicate Terminal(s: AppState) {
    s == Stopped || s == Failed
  }

  predicate Transient(s: AppState) {
    s == Starting || s == Stopping
  }

  /** Whatever is called, a terminal state stays terminal, and transient states never become visible. */
  lemma {:induction false} NoResurrection(s: AppState, ts: seq<Transition>)
    ensures Terminal(s) ==> Terminal(NextAll(s, ts))
    ensures !Transient(s) ==> !Transient(NextAll(s, ts))
    decreases |ts|
  {
    if ts != [] {
      NoResurrection(Next(s, ts[0]), ts[1..]);
    }
  }

  /** An instance can still be brought to run exactly when it is installed, paused or running. */
  lemma CanRunExactly(s: AppState)
    ensures (exists ts :: NextAll(s, ts) == Running) <==> s == Installed || s == Paused || s == Running
  {
    if s == Installed || s == Paused || s == Running {
      var ts := WayToRun(s);
      assert NextAll(s, ts) == Running;
    } else {
      forall ts ensures NextAll(s, ts) != Running {
        StuckStates(s, ts);
      }
    }
  }

  lemma WayToRun(s: AppState) returns (ts: seq<Transition>)
    requires s == Installed || s == Paused || s == Running
    ensures NextAll(s, ts) == Running
  {
    if s == Running {
      ts := [];
    } else {
      ts := [DoStart];
      assert ts[1..] == [] && NextAll(s, ts) == NextAll(Running, ts[1..]);
    }
  }

  lemma {:induction false} StuckStates(s: AppState, ts: seq<Transition>)
    requires Terminal(s) || Transient(s)
    ensures Terminal(NextAll(s, ts)) || Transient(NextAll(s, ts))
    decreases |ts|
  {
    if ts != [] {
      StuckStates(Next(s, ts[0]), ts[1..]);
    }
  }

  // ----- Registry specification -----

  datatype Instance = Instance(
    manifest: AppManifest,
    installedBy: Text,
    installedAt: int,
    state: AppState,
    data: map<Text, JsValue>,
    peers: seq<Text>)

  /** One round of callbacks. */
  datatype Notice =
    | InstallNotice(appId: Text)
    | UninstallNotice(appId: Text)
    | StateNotice(appId: Text, state: AppState)

  datatype Registry = Registry(localPodId: Text, apps: map<Text, Instance>, notices: seq<Notice>)

  datatype Operation =
    | Install(manifest: AppManifest, now: int)
    | Uninstall(appId: Text)
    | Start(appId: Text)
    | Pause(appId: Text)
    | Stop(appId: Text)
    | Update(appId: Text, newManifest: AppManifest)

  /** The operation throws and changes nothing. */
  predicate Throws(r: Registry, op: Operation) {
    match op
    case Install(m, _) => !Validates(m) || m.id in r.apps
    case Uninstall(id) => id !in r.apps
    case Start(id) => id !in r.apps || (r.apps[id].state != Installed && r.apps[id].state != Paused)
    case Pause(id) => id !in r.apps || r.apps[id].state != Running
    case Stop(id) => id !in r.apps || r.apps[id].state == Stopped
    case Update(id, m) => id !in r.apps || !Validates(m)
  }

  function Put(r: Registry, id: Text, s: AppState): Registry
    requires id in r.apps
  {
    r.(apps := r.apps[id := r.apps[id].(state := s)], notices := r.notices + [StateNotice(id, s)])
  }

  /** A replaced app runs again exactly if it was running, and only then are the observers told. */
  function Replaced(r: Registry, id: Text, m: AppManifest): Registry
    requires id in r.apps
  {
    var wasRunning := r.apps[id].state == Running;
    r.(apps := r.apps[id := r.apps[id].(manifest := m, state := if wasRunning then Running else Installed)],
       notices := if wasRunning then r.notices + [StateNotice(id, Running)] else r.notices)
  }

  function Apply(r: Registry, op: Operation): Registry {
    if Throws(r, op) then r
    else
      match op
      case Install(m, now) =>
        r.(apps := r.apps[m.id := Instance(m, r.localPodId, now, Installed, map[], [])],
           notices := r.notices + [InstallNotice(m.id)])
      case Uninstall(id) => r.(apps := r.apps - {id}, notices := r.notices + [UninstallNotice(id)])
      case Start(id) => Put(r, id, Running)
      case Pause(id) => Put(r, id, Paused)
      case Stop(id) => Put(r, id, Stopped)
      case Update(id, m) => Replaced(r, id, m)
  }

  function ApplyAll(r: Registry, ops: seq<Operation>): Registry {
    if ops == [] then r else Apply(ApplyAll(r, ops[..|ops| - 1]), ops[|ops| - 1])
  }

  ghost predicate IsThreeRuns(v: Text, a: Text, b: Text, c: Text) {
    && a != [] && b != [] && c != [] && IsDigits(a) && IsDigits(b) && IsDigits(c)
    && v == a + ['.' as int] + b + ['.' as int] + c
  }

  /** A version is three non-empty runs of digits with full stops between them. */
  lemma VersionMeans(v: Text)
    ensures IsValidVersion(v) <==> exists a, b, c :: IsThreeRuns(v, a, b, c)
  {
    if IsValidVersion(v) {
      ValidHasRuns(v);
    }
    if a, b, c :| IsThreeRuns(v, a, b, c) {
      ThreeRuns(v, a, b, c);
      assert v[|a|] == 46 && v[|a| + 1 + |b|] == 46;
    }
  }

  lemma ValidHasRuns(v: Text)
    requires IsValidVersion(v)
    ensures exists a, b, c :: IsThreeRuns(v, a, b, c)
  {
    var i, j :| 0 < i < |v| && i + 1 < j < |v| - 1 && v[i] == 46 && v[j] == 46
                && forall k :: 0 <= k < |v| && k != i && k != j ==> IsDigit(v[k]);
    assert v == v[..i] + ['.' as int] + v[i + 1..j] + ['.' as int] + v[j + 1..];
    assert IsThreeRuns(v, v[..i], v[i + 1..j], v[j + 1..]);
  }

  lemma ThreeRuns(v: Text, a: Text, b: Text, c: Text)
    requires IsDigits(a) && IsDigits(b) && IsDigits(c) && v == a + [46] + b + [46] + c
    ensures forall k :: 0 <= k < |v| && k != |a| && k != |a| + 1 + |b| ==> IsDigit(v[k])
  {
    forall k | 0 <= k < |v| && k != |a| && k != |a| + 1 + |b| ensures IsDigit(v[k]) {
      if k < |a| {
        assert v[k] == a[k];
      } else if k < |a| + 1 + |b| {
        assert v[k] == b[k - |a| - 1];
      } else {
        assert v[k] == c[k - |a| - |b| - 2];
      }
    }
  }

  /** r' is r with one app set to i, and every other app as it was. */
  ghost predicate SetsApp(r: Registry, r': Registry, id: Text, i: Instance) {
    && r'.localPodId == r.localPodId && r'.apps.Keys == r.apps.Keys + {id} && r'.apps[id] == i
    && forall other :: other in r.apps && other != id ==> r'.apps[other] == r.apps[other]
  }

  /** What an operation does to the apps and which callbacks it fires; an operation that throws does neither. */
  lemma ApplyMeans(r: Registry, op: Operation)
    ensures var r' := Apply(r, op);
            match op
            case Install(m, now) =>
              var named := |m.id| > 0 && |m.name| > 0 && |m.version| > 0 && |m.entryPoint| > 0;
              var valid := named && IsValidVersion(m.version);
              && (valid && m.id !in r.apps ==>
                    && SetsApp(r, r', m.id, Instance(m, r.localPodId, now, Installed, map[], []))
                    && r'.notices == r.notices + [InstallNotice(m.id)])
              && (!valid || m.id in r.apps ==> r' == r && Throws(r, op))
            case Uninstall(id) =>
              && (id in r.apps ==>
                    r'.apps == r.apps - {id} && r'.notices == r.notices + [UninstallNotice(id)])
              && (id !in r.apps ==> r' == r && Throws(r, op))
            case Start(id) =>
              && (id in r.apps && (r.apps[id].state == Installed || r.apps[id].state == Paused) ==>
                    && SetsApp(r, r', id, r.apps[id].(state := Running))
                    && r'.notices == r.notices + [StateNotice(id, Running)])
              && (!(id in r.apps && (r.apps[id].state == Installed || r.apps[id].state == Paused)) ==>
                    r' == r && Throws(r, op))
            case Pause(id) =>
              && (id in r.apps && r.apps[id].state == Running ==>
                    && SetsApp(r, r', id, r.apps[id].(state := Paused))
                    && r'.notices == r.notices + [StateNotice(id, Paused)])
              && (!(id in r.apps && r.apps[id].state == Running) ==> r' == r && Throws(r, op))
            case Stop(id) =>
              && (id in r.apps && r.apps[id].state != Stopped ==>
                    && SetsApp(r, r', id, r.apps[id].(state := Stopped))
                    && r'.notices == r.notices + [StateNotice(id, Stopped)])
              && (!(id in r.apps && r.apps[id].state != Stopped) ==> r' == r && Throws(r, op))
            case Update(id, m) =>
              var named := |m.id| > 0 && |m.name| > 0 && |m.version| > 0 && |m.entryPoint| > 0;
              var valid := named && IsValidVersion(m.version);
              && (id in r.apps && valid ==>
                    var i := r.apps[id];
                    var state := if i.state == Running then Running else Installed;
                    && SetsApp(r, r', id, Instance(m, i.installedBy, i.installedAt, state, i.data, i.peers))
                    && r'.notices == r.notices + (if i.state == Running then [StateNotice(id, Running)] else []))
              && (!(id in r.apps && valid) ==> r' == r && Throws(r, op))
  {
  }

  /** Whatever is called, an app that is not uninstalled keeps who installed it and when, its data and its peers. */
  lemma {:induction false} ProvenanceKept(r: Registry, ops: seq<Operation>, id: Text)
    requires id in r.apps && Uninstall(id) !in ops
    ensures var r' := ApplyAll(r, ops);
            && id in r'.apps
            && r'.apps[id].installedBy == r.apps[id].installedBy && r'.apps[id].installedAt == r.apps[id].installedAt
            && r'.apps[id].data == r.apps[id].data && r'.apps[id].peers == r.apps[id].peers
  {
    if ops != [] {
      var init, last := ops[..|ops| - 1], ops[|ops| - 1];
      assert ops == init + [last];
      ProvenanceKept(r, init, id);
    }
  }

  /** In every run of a new registry, every app is one that it has installed itself, with a valid manifest. */
  lemma {:induction false} OwnInstalls(localPodId: Text, ops: seq<Operation>, id: Text)
    ensures var r := ApplyAll(Registry(localPodId, map[], []), ops);
            && r.localPodId == localPodId
            && (id in r.apps ==> r.apps[id].installedBy == localPodId && Validates(r.apps[id].manifest))
  {
    if ops != [] {
      OwnInstalls(localPodId, ops[..|ops| - 1], id);
    }
  }

  // ----- Observers -----

  /** What an observer keeps: the installed ids and the running ones. */
  datatype Replica = Replica(installed: set<Text>, running: set<Text>)

  function Observe(p: Replica, n: Notice): Replica {
    match n
    case InstallNotice(id) => p.(installed := p.installed + {id})
    case UninstallNotice(id) => Replica(p.installed - {id}, p.running - {id})
    case StateNotice(id, s) => p.(running := if s == Running then p.running + {id} else p.running - {id})
  }

  function ObserveAll(notices: seq<Notice>): Replica {
    if notices == [] then Replica({}, {}) else Observe(ObserveAll(notices[..|notices| - 1]), notices[|notices| - 1])
  }

  function RunningApps(apps: map<Text, Instance>): set<Text> {
    set id | id in apps && apps[id].state == Running
  }

  ghost predicate Observed(r: Registry) {
    ObserveAll(r.notices) == Replica(r.apps.Keys, RunningApps(r.apps))
  }

  lemma ObserveOne(notices: seq<Notice>, n: Notice)
    ensures ObserveAll(notices + [n]) == Observe(ObserveAll(notices), n)
  {
    assert (notices + [n])[..|notices|] == notices;
  }

  lemma RunningAfterPut(apps: map<Text, Instance>, id: Text, i: Instance)
    ensures RunningApps(apps[id := i])
         == if i.state == Running then RunningApps(apps) + {id} else RunningApps(apps) - {id}
  {
  }

  lemma InstallObserved(r: Registry, id: Text, i: Instance)
    requires Observed(r) && id !in r.apps && i.state != Running
    ensures Observed(r.(apps := r.apps[id := i], notices := r.notices + [InstallNotice(id)]))
  {
    RunningAfterPut(r.apps, id, i);
    ObserveOne(r.notices, InstallNotice(id));
  }

  lemma UninstallObserved(r: Registry, id: Text)
    requires Observed(r)
    ensures Observed(r.(apps := r.apps - {id}, notices := r.notices + [UninstallNotice(id)]))
  {
    assert RunningApps(r.apps - {id}) == RunningApps(r.apps) - {id};
    ObserveOne(r.notices, UninstallNotice(id));
  }

  lemma ChangeObserved(r: Registry, id: Text, i: Instance)
    requires Observed(r) && id in r.apps
    ensures Observed(r.(apps := r.apps[id := i], notices := r.notices + [StateNotice(id, i.state)]))
  {
    RunningAfterPut(r.apps, id, i);
    ObserveOne(r.notices, StateNotice(id, i.state));
    assert r.apps[id := i].Keys == r.apps.Keys;
  }

  /** A change that nobody is told of is harmless as long as the app was not and is not running. */
  lemma QuietlyObserved(r: Registry, id: Text, i: Instance)
    requires Observed(r) && id in r.apps && r.apps[id].state != Running && i.state != Running
    ensures Observed(r.(apps := r.apps[id := i]))
  {
    RunningAfterPut(r.apps, id, i);
    assert r.apps[id := i].Keys == r.apps.Keys;
  }

  lemma ApplyObserved(r: Registry, op: Operation)
    requires Observed(r)
    ensures Observed(Apply(r, op))
  {
    if !Throws(r, op) {
      match op
      case Install(m, now) => InstallObserved(r, m.id, Instance(m, r.localPodId, now, Installed, map[], []));
      case Uninstall(id) => UninstallObserved(r, id);
      case Start(id) => ChangeObserved(r, id, r.apps[id].(state := Running));
      case Pause(id) => ChangeObserved(r, id, r.apps[id].(state := Paused));
      case Stop(id) => ChangeObserved(r, id, r.apps[id].(state := Stopped));
      case Update(id, m) =>
        if r.apps[id].state == Running {
          ChangeObserved(r, id, r.apps[id].(manifest := m, state := Running));
        } else {
          QuietlyObserved(r, id, r.apps[id].(manifest := m, state := Installed));
        }
    }
  }

  /** After any run of registry calls, thrown ones included, the replica holds the installed and the running ids. */
  lemma {:induction false} ReplicaExact(localPodId: Text, ops: seq<Operation>)
    ensures Observed(ApplyAll(Registry(localPodId, map[], []), ops))
  {
    if ops != [] {
      ReplicaExact(localPodId, ops[..|ops| - 1]);
      ApplyObserved(ApplyAll(Registry(localPodId, map[], []), ops[..|ops| - 1]), ops[|ops| - 1]);
    } else {
      assert RunningApps(map[]) == {};
    }
  }

  /** Nobody is told of an update that turns a paused, stopped or failed app back into an installed one. */
  lemma SilentChangeExactly(r: Registry, op: Operation, id: Text)
    requires id in r.apps && id in Apply(r, op).apps
    ensures Apply(r, op).notices == r.notices && Apply(r, op).apps[id].state != r.apps[id].state
            <==> op.Update? && op.appId == id && Validates(op.newManifest)
                 && r.apps[id].state != Running && r.apps[id].state != Installed
  {
    assert forall n :: |r.notices + [n]| == |r.notices| + 1;
  }

  lemma UpdatedThenRemoved<K, V>(m: map<K, V>, k: K, v: V)
    ensures m[k := v] - {k} == m - {k}
  {
  }

  lemma UpdatedTwice<K, V>(m: map<K, V>, k: K, v: V, w: V)
    ensures m[k := v][k := w] == m[k := w]
  {
  }

  // ----- The objects -----

  class AppInstance {
    var manifest: AppManifest
    var installedBy: Text
    var installedAt: int
    var state: AppState
    var data: map<Text, JsValue>
    var peers: seq<Text>

    ghost function Snapshot(): Instance
      reads this
    {
      Instance(manifest, installedBy, installedAt, state, data, peers)
    }

    constructor (manifest: AppManifest, installedBy: Text, installedAt: int, data: map<Text, JsValue>, peers: seq<Text>)
      ensures Snapshot() == Instance(manifest, installedBy, installedAt, Installed, data, peers)
    {
      this.manifest, this.installedBy, this.installedAt := manifest, installedBy, installedAt;
      this.state, this.data, this.peers := Installed, data, peers;
    }

    method Start() returns (ok: bool)
      modifies this`state
      ensures ok <==> old(state) == Installed || old(state) == Paused
      ensures state == Next(old(state), DoStart) && state == (if ok then Running else old(state))
    {
      if state != Installed && state != Paused {
        return false;
      }
      state := Starting;
      state := Running;
      return true;
    }

    method Pause() returns (ok: bool)
      modifies this`state
      ensures ok <==> old(state) == Running
      ensures state == Next(old(state), DoPause) && state == (if ok then Paused else old(state))
    {
      if state != Running {
        return false;
      }
      state := Paused;
      return true;
    }

    method Stop() returns (ok: bool)
      modifies this`state
      ensures ok <==> old(state) != Stopped
      ensures state == Next(old(state), DoStop) && state == Stopped
    {
      if state == Stopped {
        return false;
      }
      state := Stopping;
      state := Stopped;
      return true;
    }

    method SetError()
      modifies this`state
      ensures state == Next(old(state), DoSetError) && state == Failed
    {
      state := Failed;
    }
  }

  class AppRegistry {
    const localPodId: Text
    var apps: map<Text, AppInstance>
    var notices: seq<Notice>
    ghost var uninstalled: set<AppInstance>
    ghost var replaced: set<AppInstance>
    /** Every instance this registry has ever made. */
    ghost var created: set<AppInstance>

    ghost function Snapshot(): Registry
      reads this, apps.Values
    {
      Registry(localPodId, map id | id in apps :: apps[id].Snapshot(), notices)
    }

    /**
     * No instance is registered twice, removed instances are terminal, and replaced ones are not running.
     */
    ghost predicate Valid()
      reads this, apps.Values, uninstalled, replaced
    {
      && (forall i, j :: i in apps && j in apps && i != j ==> apps[i] != apps[j])
      && (forall i :: i in uninstalled ==> i !in apps.Values && Terminal(i.state))
      && (forall i :: i in replaced ==> i !in apps.Values && i.state != Running)
      && (forall id :: id in apps ==> !Transient(apps[id].state))
      && (forall i :: i in created ==> i in apps.Values || i in uninstalled || i in replaced)
      && apps.Values <= created && uninstalled <= created && replaced <= created
    }

    /** No instance outside the map is running, and the uninstalled ones can never run again. */
    lemma OnlyRegisteredRun(i: AppInstance, ts: seq<Transition>)
      requires Valid() && i in created
      ensures i.state == Running ==> i in apps.Values
      ensures i in uninstalled ==> NextAll(i.state, ts) != Running
    {
      NoResurrection(i.state, ts);
    }

    /** When one registered instance changes, the snapshot changes at its key and nowhere else. */
    twostate lemma ChangeAt(appId: Text)
      requires old(Valid()) && apps == old(apps) && appId in apps
      requires forall i :: i in apps.Values && i != apps[appId] ==> unchanged(i)
      ensures Snapshot().apps == old(Snapshot()).apps[appId := apps[appId].Snapshot()]
    {
      forall id | id in apps && id != appId ensures apps[id].Snapshot() == old(apps[id].Snapshot()) {
        assert apps[id] in apps.Values;
      }
    }

    /** A lifecycle call on one registered instance keeps the registry valid. */
    twostate lemma StillValid(appId: Text)
      requires old(Valid()) && apps == old(apps) && appId in apps
      requires uninstalled == old(uninstalled) && replaced == old(replaced) && created == old(created)
      requires forall i :: i in apps.Values && i != apps[appId] ==> unchanged(i)
      requires forall i :: i in uninstalled || i in replaced ==> unchanged(i)
      requires !Transient(apps[appId].state)
      ensures Valid()
    {
      forall id | id in apps ensures !Transient(apps[id].state) {
        assert apps[id] in apps.Values;
      }
    }

    constructor (localPodId: Text)
      ensures Valid() && Snapshot() == Registry(localPodId, map[], [])
      ensures uninstalled == {} && replaced == {} && created == {}
    {
      this.localPodId, apps, notices := localPodId, map[], [];
      uninstalled, replaced, created := {}, {}, {};
    }

    /** Registers a new instance under a free key. */
    method Add(appId: Text, inst: AppInstance)
      requires Valid() && appId !in apps
      requires inst !in created && inst.state == Installed
      modifies this`apps, this`created
      ensures Valid() && apps == old(apps)[appId := inst] && created == old(created) + {inst}
      ensures Snapshot().apps == old(Snapshot()).apps[appId := inst.Snapshot()]
    {
      apps := apps[appId := inst];
      created := created + {inst};
      StillCovered(old(apps), appId, inst);
      assert apps[appId] == inst && inst in apps.Values;
    }

    /** Returns the new instance, or null when the source throws. */
    method Install(manifest: AppManifest, now: int) returns (inst: AppInstance?)
      requires Valid()
      modifies this
      ensures Valid() && Snapshot() == Apply(old(Snapshot()), Operation.Install(manifest, now))
      ensures inst != null <==> !Throws(old(Snapshot()), Operation.Install(manifest, now))
      ensures inst != null ==> fresh(inst) && apps == old(apps)[manifest.id := inst] && created == old(created) + {inst}
      ensures inst != null ==>
                && inst.manifest == manifest && inst.installedBy == localPodId && inst.installedAt == now
                && inst.state == Installed && inst.data == map[] && inst.peers == []
      ensures inst == null ==> apps == old(apps) && created == old(created)
      ensures uninstalled == old(uninstalled) && replaced == old(replaced)
    {
      if !Validates(manifest) {
        return null;
      }
      if manifest.id in apps {
        return null;
      }
      inst := new AppInstance(manifest, localPodId, now, map[], []);
      Add(manifest.id, inst);
      Notify(InstallNotice(manifest.id));
    }

    /** One round of callbacks; a callback that throws is ignored. */
    method Notify(n: Notice)
      requires Valid()
      modifies this`notices
      ensures Valid() && notices == old(notices) + [n] && Snapshot().apps == old(Snapshot()).apps
    {
      notices := notices + [n];
    }

    /** Stops a registered instance if it is active. */
    method StopIfActive(appId: Text, active: bool)
      requires Valid() && appId in apps
      modifies {apps[appId]}
      ensures Valid()
      ensures var before := old(apps[appId].Snapshot());
              apps[appId].Snapshot() == before.(state := if active then Stopped else before.state)
      ensures Snapshot().apps == old(Snapshot()).apps[appId := apps[appId].Snapshot()]
    {
      if active {
        var _ := apps[appId].Stop();
      }
      ChangeAt(appId);
      StillValid(appId);
    }

    /** A registered instance other than the one at appId is still registered after a change at that key. */
    lemma StillCovered(before: map<Text, AppInstance>, appId: Text, inst: AppInstance)
      requires apps - {appId} == before - {appId} && (appId in before ==> before[appId] == inst)
      ensures forall i :: i in before.Values && i != inst ==> i in apps.Values
    {
      forall i | i in before.Values && i != inst ensures i in apps.Values {
        var id :| id in before && before[id] == i;
        assert id in before - {appId} && (before - {appId})[id] == (apps - {appId})[id];
        assert id in apps && apps[id] == i;
      }
    }

    /** Takes a terminal instance out of the map. */
    method Remove(appId: Text)
      requires Valid() && appId in apps && Terminal(apps[appId].state)
      modifies this`apps, this`uninstalled
      ensures Valid() && apps == old(apps) - {appId} && uninstalled == old(uninstalled) + {old(apps)[appId]}
      ensures Snapshot().apps == old(Snapshot()).apps - {appId}
    {
      ghost var inst := apps[appId];
      uninstalled := uninstalled + {inst};
      apps := apps - {appId};
      StillCovered(old(apps), appId, inst);
    }

    /** Puts a new instance in the place of one that is not running. */
    method Replace(appId: Text, newInst: AppInstance)
      requires Valid() && appId in apps && apps[appId].state != Running
      requires newInst !in created && newInst.state == Installed
      modifies this`apps, this`replaced, this`created
      ensures Valid() && apps == old(apps)[appId := newInst] && replaced == old(replaced) + {old(apps)[appId]}
      ensures created == old(created) + {newInst}
      ensures Snapshot().apps == old(Snapshot()).apps[appId := newInst.Snapshot()]
    {
      ghost var inst := apps[appId];
      replaced, created := replaced + {inst}, created + {newInst};
      apps := apps[appId := newInst];
      StillCovered(old(apps), appId, inst);
      assert apps[appId] == newInst && newInst in apps.Values;
    }

    method UninstallFound(appId: Text)
      requires Valid() && appId in apps
      modifies this`apps, this`notices, this`uninstalled, {apps[appId]}
      ensures Valid() && apps == old(apps) - {appId}
      ensures Snapshot().apps == old(Snapshot()).apps - {appId}
      ensures notices == old(notices) + [UninstallNotice(appId)]
      ensures uninstalled == old(uninstalled) + {old(apps)[appId]}
    {
      var inst := apps[appId];
      StopIfActive(appId, inst.state != Stopped && inst.state != Failed);
      Remove(appId);
      UpdatedThenRemoved(old(Snapshot()).apps, appId, inst.Snapshot());
      Notify(UninstallNotice(appId));
    }

    method Uninstall(appId: Text) returns (ok: bool)
      requires Valid()
      modifies this`apps, this`notices, this`uninstalled, if appId in apps then {apps[appId]} else {}
      ensures Valid() && Snapshot() == Apply(old(Snapshot()), Operation.Uninstall(appId))
      ensures ok <==> appId in old(apps)
      ensures apps == old(apps) - {appId}
      ensures uninstalled == old(uninstalled) + (if appId in old(apps) then {old(apps)[appId]} else {})
    {
      if appId !in apps {
        return false;
      }
      UninstallFound(appId);
      return true;
    }

    method Start(appId: Text) returns (ok: bool)
      requires Valid()
      modifies this`notices, if appId in apps then {apps[appId]} else {}
      ensures Valid() && Snapshot() == Apply(old(Snapshot()), Operation.Start(appId))
      ensures ok <==> !Throws(old(Snapshot()), Operation.Start(appId))
    {
      if appId !in apps {
        return false;
      }
      var inst := apps[appId];
      ok := inst.Start();
      if ok {
        notices := notices + [StateNotice(appId, inst.state)];
      }
      ChangeAt(appId);
      StillValid(appId);
    }

    method Pause(appId: Text) returns (ok: bool)
      requires Valid()
      modifies this`notices, if appId in apps then {apps[appId]} else {}
      ensures Valid() && Snapshot() == Apply(old(Snapshot()), Operation.Pause(appId))
      ensures ok <==> !Throws(old(Snapshot()), Operation.Pause(appId))
    {
      if appId !in apps {
        return false;
      }
      var inst := apps[appId];
      ok := inst.Pause();
      if ok {
        notices := notices + [StateNotice(appId, inst.state)];
      }
      ChangeAt(appId);
      StillValid(appId);
    }

    method Stop(appId: Text) returns (ok: bool)
      requires Valid()
      modifies this`notices, if appId in apps then {apps[appId]} else {}
      ensures Valid() && Snapshot() == Apply(old(Snapshot()), Operation.Stop(appId))
      ensures ok <==> !Throws(old(Snapshot()), Operation.Stop(appId))
    {
      if appId !in apps {
        return false;
      }
      var inst := apps[appId];
      ok := inst.Stop();
      if ok {
        notices := notices + [StateNotice(appId, inst.state)];
      }
      ChangeAt(appId);
      StillValid(appId);
    }

    method ReplaceManifest(appId: Text, newManifest: AppManifest)
      requires Valid() && appId in apps
      modifies this`apps, this`replaced, this`created, {apps[appId]}
      ensures Valid() && replaced == old(replaced) + {old(apps)[appId]}
      ensures appId in apps && fresh(apps[appId]) && apps == old(apps)[appId := apps[appId]]
      ensures Snapshot().apps == old(Snapshot()).apps[appId := apps[appId].Snapshot()]
      ensures apps[appId].Snapshot() == old(apps[appId].Snapshot()).(manifest := newManifest, state := Installed)
      ensures created == old(created) + {apps[appId]}
    {
      var inst := apps[appId];
      StopIfActive(appId, inst.state != Stopped && inst.state != Installed && inst.state != Failed);
      SwapInstance(appId, newManifest);
      UpdatedTwice(old(Snapshot()).apps, appId, inst.Snapshot(), apps[appId].Snapshot());
    }

    /** Puts a new instance with the old data, peers and installer in the place of the stopped one. */
    method SwapInstance(appId: Text, newManifest: AppManifest)
      requires Valid() && appId in apps && apps[appId].state != Running
      modifies this`apps, this`replaced, this`created
      ensures Valid() && replaced == old(replaced) + {old(apps)[appId]}
      ensures appId in apps && fresh(apps[appId]) && apps == old(apps)[appId := apps[appId]]
      ensures created == old(created) + {apps[appId]}
      ensures apps[appId].Snapshot() == old(apps[appId].Snapshot()).(manifest := newManifest, state := Installed)
      ensures Snapshot().apps == old(Snapshot()).apps[appId := apps[appId].Snapshot()]
    {
      var inst := apps[appId];
      var newInst := new AppInstance(newManifest, inst.installedBy, inst.installedAt, inst.data, inst.peers);
      Replace(appId, newInst);
    }

    method UpdateFound(appId: Text, newManifest: AppManifest)
      requires Valid() && appId in apps && Validates(newManifest)
      modifies this`apps, this`notices, this`replaced, this`created, {apps[appId]}
      ensures Valid() && Snapshot() == Replaced(old(Snapshot()), appId, newManifest)
      ensures appId in apps && fresh(apps[appId]) && apps == old(apps)[appId := apps[appId]]
      ensures created == old(created) + {apps[appId]} && replaced == old(replaced) + {old(apps)[appId]}
      ensures apps[appId].Snapshot()
           == old(apps[appId].Snapshot()).(manifest := newManifest,
                                           state := if old(apps[appId].state) == Running then Running else Installed)
    {
      var wasRunning := apps[appId].state == Running;
      ReplaceManifest(appId, newManifest);
      if wasRunning {
        Restart(appId);
        ghost var before := old(apps[appId].Snapshot()).(manifest := newManifest);
        UpdatedTwice(old(Snapshot()).apps, appId, before.(state := Installed), before.(state := Running));
      }
    }

    /** Starts the instance that has just replaced a running one. */
    method Restart(appId: Text)
      requires Valid() && appId in apps && apps[appId].state == Installed
      modifies this`notices, {apps[appId]}
      ensures Valid() && notices == old(notices) + [StateNotice(appId, Running)]
      ensures apps[appId].Snapshot() == old(apps[appId].Snapshot()).(state := Running)
      ensures Snapshot().apps == old(Snapshot()).apps[appId := old(apps[appId].Snapshot()).(state := Running)]
    {
      var _ := Start(appId);
      assert Snapshot().apps[appId] == apps[appId].Snapshot();
    }

    method Update(appId: Text, newManifest: AppManifest) returns (ok: bool)
      requires Valid()
      modifies this`apps, this`notices, this`replaced, this`created, if appId in apps then {apps[appId]} else {}
      ensures Valid() && Snapshot() == Apply(old(Snapshot()), Operation.Update(appId, newManifest))
      ensures ok <==> !Throws(old(Snapshot()), Operation.Update(appId, newManifest))
      ensures ok ==> appId in apps && fresh(apps[appId]) && apps == old(apps)[appId := apps[appId]]
      ensures ok ==> created == old(created) + {apps[appId]} && replaced == old(replaced) + {old(apps)[appId]}
      ensures ok ==>
                && apps[appId].manifest == newManifest
                && apps[appId].installedBy == old(apps[appId].installedBy)
                && apps[appId].installedAt == old(apps[appId].installedAt)
                && apps[appId].data == old(apps[appId].data) && apps[appId].peers == old(apps[appId].peers)
      ensures !ok ==> apps == old(apps) && created == old(created) && replaced == old(replaced)
    {
      if appId !in apps || !Validates(newManifest) {
        return false;
      }
      UpdateFound(appId, newManifest);
      return true;
    }

    // ----- Whole runs -----

    /** Any one registry call. */
    method Perform(op: Operation)
      requires Valid()
      modifies this, apps.Values
      ensures Valid() && Snapshot() == Apply(old(Snapshot()), op)
      ensures old(created) <= created && fresh(created - old(created)) && old(uninstalled) <= uninstalled
      ensures forall i :: i in apps.Values ==> i in old(apps.Values) || fresh(i)
    {
      match op {
        case Install(manifest, now) => var _ := Install(manifest, now);
        case Uninstall(appId) => var _ := Uninstall(appId);
        case Start(appId) => var _ := Start(appId);
        case Pause(appId) => var _ := Pause(appId);
        case Stop(appId) => var _ := Stop(appId);
        case Update(appId, newManifest) => var _ := Update(appId, newManifest);
      }
    }

    /**
     * After any run of registry calls the snapshot is what the specification says, every instance made on
     * the way is remembered, and of all of them only registered ones are running.
     */
    method PerformAll(ops: seq<Operation>)
      requires Valid()
      modifies this, apps.Values
      ensures Valid() && Snapshot() == ApplyAll(old(Snapshot()), ops)
      ensures old(created) <= created && fresh(created - old(created)) && old(uninstalled) <= uninstalled
      ensures forall i :: i in created && i.state == Running ==> i in apps.Values
      ensures forall i :: i in uninstalled ==> Terminal(i.state)
    {
      for k := 0 to |ops|
        invariant Valid() && Snapshot() == ApplyAll(old(Snapshot()), ops[..k])
        invariant old(created) <= created && fresh(created - old(created)) && old(uninstalled) <= uninstalled
        invariant forall i :: i in apps.Values ==> i in old(apps.Values) || fresh(i)
      {
        assert ops[..k + 1][..k] == ops[..k];
        Perform(ops[k]);
      }
      assert ops[..|ops|] == ops;
    }
  }
}
