/**
 * Overlapping append calls on one chain. A call reads the chain when it starts, awaits, and pushes
 * later; other calls may run between those steps.
 */
module AppendProtocol {
  import opened Bytes
  import opened JsText
  import opened CanonicalJson
  import opened AuditEntry
  import opened AuditChain
  import opened Fork

  /** The steps of append call `id`, in the order in which the event loop runs them. */
  datatype Event =
    | Start(id: nat, author: Text, operation: Text, data: JsValue)
    | Draft(id: nat, timestamp: int)
    | Push(id: nat, signature: Option<Bytes>)
    | Fail(id: nat)

  /** A call between two of its steps: what it has read of the chain, or the entry awaiting its signature. */
  datatype Call =
    | Hashing(sequence: nat, author: Text, operation: Text, data: JsValue, previousHash: Digest)
    | Signing(entry: Entry)

  datatype State = State(entries: seq<Entry>, calls: map<nat, Call>, started: set<nat>)

  /** A chain with no call in progress: a new one, or one that was read back with these entries. */
  function Initial(base: seq<Entry>): State {
    State(base, map[], {})
  }

  predicate Enabled(s: State, e: Event) {
    match e
    case Start(id, _, _, _) => id !in s.started
    case Draft(id, _) => id in s.calls && s.calls[id].Hashing?
    case Push(id, _) => id in s.calls && s.calls[id].Signing?
    case Fail(id) => id in s.calls
  }

  function Step(sha: Hasher, s: State, e: Event): State
    requires Enabled(s, e)
  {
    match e
    case Start(id, author, operation, data) =>
      var n := |s.entries|;
      var previous := if n == 0 then ZERO_DIGEST else EntryHash(sha, s.entries[n - 1]);
      s.(calls := s.calls[id := Hashing(n, author, operation, data, previous)], started := s.started + {id})
    case Draft(id, timestamp) =>
      var c := s.calls[id];
      var entry := Entry(c.sequence, c.author, c.operation, c.data, c.previousHash, timestamp, None);
      s.(calls := s.calls[id := Signing(entry)])
    case Push(id, signature) =>
      s.(entries := s.entries + [s.calls[id].entry.(signature := signature)], calls := s.calls - {id})
    case Fail(id) =>
      s.(calls := s.calls - {id})
  }

  /** A run is any interleaving of calls, on a chain that begins as base, in which each step is enabled. */
  predicate IsRun(sha: Hasher, base: seq<Entry>, run: seq<Event>)
    decreases |run|, 0
  {
    run == [] || (IsRun(sha, base, run[..|run| - 1]) && Enabled(After(sha, base, run[..|run| - 1]), run[|run| - 1]))
  }

  function After(sha: Hasher, base: seq<Entry>, run: seq<Event>): State
    requires IsRun(sha, base, run)
    decreases |run|, 1
  {
    if run == [] then Initial(base) else Step(sha, After(sha, base, run[..|run| - 1]), run[|run| - 1])
  }

  function Pushes(run: seq<Event>): nat {
    if run == [] then 0 else Pushes(run[..|run| - 1]) + (if run[|run| - 1].Push? then 1 else 0)
  }

  /** The run ends in a push, and another push falls between the start of that call and its push. */
  ghost predicate EndsStale(run: seq<Event>) {
    run != [] && run[|run| - 1].Push?
    && exists p, r :: 0 <= p < r < |run| - 1 && run[p].Start? && run[p].id == run[|run| - 1].id && run[r].Push?
  }

  lemma {:induction false} PrefixIsRun(sha: Hasher, base: seq<Entry>, run: seq<Event>, n: nat)
    requires IsRun(sha, base, run) && n <= |run|
    ensures IsRun(sha, base, run[..n])
  {
    if n < |run| {
      PrefixIsRun(sha, base, run[..|run| - 1], n);
      assert run[..|run| - 1][..n] == run[..n];
    } else {
      assert run[..n] == run;
    }
  }

  /** The chain only grows, by one entry for each push. */
  lemma {:induction false} EntriesGrow(sha: Hasher, base: seq<Entry>, run: seq<Event>, n: nat)
    requires IsRun(sha, base, run) && n <= |run|
    ensures IsRun(sha, base, run[..n])
    ensures |After(sha, base, run).entries| == |base| + Pushes(run)
    ensures |After(sha, base, run[..n]).entries| == |base| + Pushes(run[..n])
    ensures After(sha, base, run[..n]).entries <= After(sha, base, run).entries
  {
    PrefixIsRun(sha, base, run, n);
    EntriesCount(sha, base, run);
    EntriesCount(sha, base, run[..n]);
    if n < |run| {
      var init := run[..|run| - 1];
      EntriesGrow(sha, base, init, n);
      assert init[..n] == run[..n];
    } else {
      assert run[..n] == run;
    }
  }

  lemma {:induction false} EntriesCount(sha: Hasher, base: seq<Entry>, run: seq<Event>)
    requires IsRun(sha, base, run)
    ensures |After(sha, base, run).entries| == |base| + Pushes(run)
  {
    if run != [] {
      EntriesCount(sha, base, run[..|run| - 1]);
    }
  }

  /** No push in run[p..] means that the number of pushes has not moved since p. */
  lemma {:induction false} PushBetween(run: seq<Event>, p: nat)
    requires p <= |run|
    ensures Pushes(run[..p]) <= Pushes(run)
    ensures Pushes(run[..p]) < Pushes(run) <==> exists r :: p <= r < |run| && run[r].Push?
  {
    if p < |run| {
      var init := run[..|run| - 1];
      PushBetween(init, p);
      assert init[..p] == run[..p];
      if exists r :: p <= r < |init| && init[r].Push? {
        var r :| p <= r < |init| && init[r].Push?;
        assert run[r].Push?;
      }
    } else {
      assert run[..p] == run;
    }
  }

  /** The position at which a call started. */
  function StartOf(run: seq<Event>, id: nat): (p: int)
    ensures -1 <= p < |run|
    ensures p >= 0 ==> run[p].Start? && run[p].id == id
  {
    if run == [] then -1
    else if run[|run| - 1].Start? && run[|run| - 1].id == id then |run| - 1
    else StartOf(run[..|run| - 1], id)
  }

  lemma {:induction false} StartedOnce(sha: Hasher, base: seq<Entry>, run: seq<Event>, id: nat)
    requires IsRun(sha, base, run)
    ensures id in After(sha, base, run).started <==> StartOf(run, id) >= 0
    ensures id in After(sha, base, run).calls ==> id in After(sha, base, run).started
    ensures forall p :: 0 <= p < |run| && run[p].Start? && run[p].id == id ==> p == StartOf(run, id)
  {
    if run != [] {
      var init := run[..|run| - 1];
      StartedOnce(sha, base, init, id);
      forall p | 0 <= p < |run| && run[p].Start? && run[p].id == id ensures p == StartOf(run, id) {
        if p < |init| {
          assert init[p] == run[p];
        }
      }
    }
  }

  /** A call that has been started is not in progress. */
  ghost predicate Over(s: State, id: nat) {
    id in s.started && id !in s.calls
  }

  lemma {:induction false} OverStays(sha: Hasher, base: seq<Entry>, run: seq<Event>, n: nat, id: nat)
    requires IsRun(sha, base, run) && n <= |run| && IsRun(sha, base, run[..n])
    requires Over(After(sha, base, run[..n]), id)
    ensures Over(After(sha, base, run), id)
    ensures forall j :: n <= j < |run| ==> run[j].id != id
  {
    if n < |run| {
      var init := run[..|run| - 1];
      assert init[..n] == run[..n];
      OverStays(sha, base, init, n, id);
    } else {
      assert run[..n] == run;
    }
  }

  /** A call pushes or fails at most once and does nothing afterwards. */
  lemma CallEndsOnce(sha: Hasher, base: seq<Entry>, run: seq<Event>, i: nat, j: nat)
    requires IsRun(sha, base, run) && i < j < |run| && (run[i].Push? || run[i].Fail?)
    ensures run[j].id != run[i].id
  {
    PrefixIsRun(sha, base, run, i + 1);
    var prefix := run[..i + 1];
    assert prefix[..|prefix| - 1] == run[..i] && prefix[|prefix| - 1] == run[i];
    StartedOnce(sha, base, run[..i], run[i].id);
    OverStays(sha, base, run, i + 1, run[i].id);
  }

  /** What a call has read of the chain. */
  function ReadSequence(c: Call): int {
    if c.Hashing? then c.sequence else c.entry.sequence
  }

  function ReadPrevious(c: Call): Bytes {
    if c.Hashing? then c.previousHash else c.entry.previousHash
  }

  ghost predicate ReadAt(sha: Hasher, s: State, c: Call, n: nat) {
    && n <= |s.entries|
    && ReadSequence(c) == n
    && ReadPrevious(c) == ExpectedPrevious(sha, s.entries, n)
    && (c.Signing? ==> c.entry.signature == None)
  }

  lemma ReadAtStart(sha: Hasher, s: State, e: Event)
    requires Enabled(s, e) && e.Start?
    ensures ReadAt(sha, Step(sha, s, e), Step(sha, s, e).calls[e.id], |s.entries|)
  {
  }

  /** The step of a run at a position. */
  lemma StepAt(sha: Hasher, base: seq<Entry>, run: seq<Event>, p: nat)
    requires IsRun(sha, base, run) && p < |run|
    ensures IsRun(sha, base, run[..p]) && IsRun(sha, base, run[..p + 1])
    ensures Enabled(After(sha, base, run[..p]), run[p])
    ensures After(sha, base, run[..p + 1]) == Step(sha, After(sha, base, run[..p]), run[p])
  {
    PrefixIsRun(sha, base, run, p + 1);
    PrefixOfPrefix(run, p);
  }

  /** Both hold the same length and hash, and a signature only if the first does. */
  ghost predicate SameRead(c: Call, d: Call) {
    && ReadSequence(c) == ReadSequence(d) && ReadPrevious(c) == ReadPrevious(d)
    && ((c.Signing? ==> c.entry.signature == None) ==> (d.Signing? ==> d.entry.signature == None))
  }

  lemma StepKeepsCall(sha: Hasher, s: State, e: Event, id: nat)
    requires Enabled(s, e) && id in Step(sha, s, e).calls && !(e.Start? && e.id == id)
    ensures id in s.calls && SameRead(s.calls[id], Step(sha, s, e).calls[id])
  {
  }

  lemma {:induction false} CallKept(sha: Hasher, base: seq<Entry>, run: seq<Event>, m: nat, id: nat)
    requires IsRun(sha, base, run) && m <= |run| && IsRun(sha, base, run[..m]) && id in After(sha, base, run).calls
    requires forall k :: m <= k < |run| ==> !(run[k].Start? && run[k].id == id)
    ensures id in After(sha, base, run[..m]).calls
    ensures SameRead(After(sha, base, run[..m]).calls[id], After(sha, base, run).calls[id])
  {
    if m < |run| {
      var init := run[..|run| - 1];
      StepKeepsCall(sha, After(sha, base, init), run[|run| - 1], id);
      assert init[..m] == run[..m];
      CallKept(sha, base, init, m, id);
    } else {
      assert run[..m] == run;
    }
  }

  lemma ReadCarriesOver(sha: Hasher, s: State, c: Call, t: State, d: Call, n: nat)
    requires ReadAt(sha, s, c, n) && s.entries <= t.entries && SameRead(c, d)
    ensures ReadAt(sha, t, d, n)
  {
  }

  /** A pending call still holds the length and the last hash of the chain at its start. */
  lemma CallReadsStart(sha: Hasher, base: seq<Entry>, run: seq<Event>, id: nat)
    requires IsRun(sha, base, run) && id in After(sha, base, run).calls
    ensures StartOf(run, id) >= 0
    ensures ReadAt(sha, After(sha, base, run), After(sha, base, run).calls[id],
                   |base| + Pushes(run[..StartOf(run, id)]))
  {
    StartedOnce(sha, base, run, id);
    var p := StartOf(run, id);
    EntriesGrow(sha, base, run, p + 1);
    CallKept(sha, base, run, p + 1, id);
    StepAt(sha, base, run, p);
    EntriesCount(sha, base, run[..p]);
    ReadAtStart(sha, After(sha, base, run[..p]), run[p]);
    ReadCarriesOver(sha, After(sha, base, run[..p + 1]), After(sha, base, run[..p + 1]).calls[id],
                    After(sha, base, run), After(sha, base, run).calls[id], |base| + Pushes(run[..p]));
  }

  lemma PrefixOfPrefix<T>(s: seq<T>, p: nat)
    requires p < |s|
    ensures s[..p + 1][..p] == s[..p] && s[..p + 1][p] == s[p] && |s[..p + 1]| == p + 1
  {
  }

  /** The entry that the push at the end of a run adds. */
  function PushedEntry(sha: Hasher, base: seq<Entry>, run: seq<Event>): Entry
    requires IsRun(sha, base, run) && run != [] && run[|run| - 1].Push?
  {
    var push := run[|run| - 1];
    After(sha, base, run[..|run| - 1]).calls[push.id].entry.(signature := push.signature)
  }

  /** What is wrong with the push at the end of a run: it is stale, or its signature is missing or bad. */
  ghost function LastError(sha: Hasher, check: Checker, base: seq<Entry>, run: seq<Event>): Option<VerifyError>
    requires IsRun(sha, base, run) && run != [] && run[|run| - 1].Push?
  {
    if EndsStale(run) then Some(SequenceMismatch) else SignatureError(check, PushedEntry(sha, base, run))
  }

  /** What is wrong with each entry at the beginning of the run and then with each push, in order. */
  ghost function ChainErrors(sha: Hasher, check: Checker, base: seq<Entry>, run: seq<Event>): seq<Option<VerifyError>>
    requires IsRun(sha, base, run)
  {
    if run == [] then Errors(sha, check, base)
    else
      ChainErrors(sha, check, base, run[..|run| - 1])
      + (if run[|run| - 1].Push? then [LastError(sha, check, base, run)] else [])
  }

  /** The first error of a list and its position. */
  function FirstError(errors: seq<Option<VerifyError>>): (v: Verdict)
    ensures Decides(errors, v)
  {
    if errors == [] then Valid
    else
      var n := |errors| - 1;
      var v := FirstError(errors[..n]);
      if v.Invalid? then v
      else if errors[n] == None then Valid
      else Invalid(errors[n].value, n)
  }

  lemma DecidedOnce(errors: seq<Option<VerifyError>>, v: Verdict, w: Verdict)
    requires Decides(errors, v) && Decides(errors, w)
    ensures v == w
  {
  }

  /** A run ends stale exactly when something was pushed since p, where the call that pushes last has started. */
  lemma StaleByPushes(run: seq<Event>, p: nat)
    requires run != [] && run[|run| - 1].Push? && p < |run| - 1 && run[p].Start? && run[p].id == run[|run| - 1].id
    requires forall k :: 0 <= k < |run| - 1 && run[k].Start? && run[k].id == run[|run| - 1].id ==> k == p
    ensures Pushes(run[..p]) <= Pushes(run[..|run| - 1])
    ensures EndsStale(run) <==> Pushes(run[..p]) < Pushes(run[..|run| - 1])
  {
    var init := run[..|run| - 1];
    PushBetween(init, p);
    assert init[..p] == run[..p];
    if EndsStale(run) {
      var k, r :| 0 <= k < r < |init| && run[k].Start? && run[k].id == run[|run| - 1].id && run[r].Push?;
      assert init[r] == run[r];
    }
    if Pushes(init[..p]) < Pushes(init) {
      var r :| p <= r < |init| && init[r].Push?;
      assert run[r] == init[r];
    }
  }

  lemma PusherStarted(sha: Hasher, base: seq<Entry>, run: seq<Event>)
    requires IsRun(sha, base, run) && run != [] && run[|run| - 1].Push?
    ensures var p := StartOf(run[..|run| - 1], run[|run| - 1].id);
            && 0 <= p < |run| - 1 && run[p].Start? && run[p].id == run[|run| - 1].id
            && forall k :: 0 <= k < |run| - 1 && run[k].Start? && run[k].id == run[|run| - 1].id ==> k == p
  {
    var init := run[..|run| - 1];
    StartedOnce(sha, base, init, run[|run| - 1].id);
    assert forall k :: 0 <= k < |init| ==> init[k] == run[k];
  }

  /** A push is stale exactly when the chain is longer than the pushing call believes. */
  lemma StaleBySequence(sha: Hasher, base: seq<Entry>, run: seq<Event>)
    requires IsRun(sha, base, run) && run != [] && run[|run| - 1].Push?
    ensures var e := PushedEntry(sha, base, run);
            var before := After(sha, base, run[..|run| - 1]).entries;
            && 0 <= e.sequence <= |before|
            && (EndsStale(run) <==> e.sequence < |before|)
            && (!EndsStale(run) ==> e.previousHash == ExpectedPrevious(sha, before, |before|))
  {
    var init, id := run[..|run| - 1], run[|run| - 1].id;
    CallReadsStart(sha, base, init, id);
    EntriesCount(sha, base, init);
    PusherStarted(sha, base, run);
    StaleByPushes(run, StartOf(init, id));
    assert init[..StartOf(init, id)] == run[..StartOf(init, id)];
  }

  lemma LastPush(sha: Hasher, check: Checker, base: seq<Entry>, run: seq<Event>)
    requires IsRun(sha, base, run) && run != [] && run[|run| - 1].Push?
    ensures var before := After(sha, base, run[..|run| - 1]).entries;
            && After(sha, base, run).entries == before + [PushedEntry(sha, base, run)]
            && EntryError(sha, check, before + [PushedEntry(sha, base, run)], |before|)
               == LastError(sha, check, base, run)
  {
    StaleBySequence(sha, base, run);
  }

  lemma {:induction false} ChainErrorsCount(sha: Hasher, check: Checker, base: seq<Entry>, run: seq<Event>)
    requires IsRun(sha, base, run)
    ensures |ChainErrors(sha, check, base, run)| == |base| + Pushes(run)
  {
    if run != [] {
      ChainErrorsCount(sha, check, base, run[..|run| - 1]);
    }
  }

  lemma FirstErrorSnoc(errors: seq<Option<VerifyError>>, e: Option<VerifyError>)
    ensures FirstError(errors + [e])
         == if FirstError(errors).Invalid? then FirstError(errors)
            else if e == None then Valid
            else Invalid(e.value, |errors|)
  {
    assert (errors + [e])[..|errors|] == errors;
  }

  lemma VerdictStep(sha: Hasher, check: Checker, before: seq<Entry>, e: Entry,
                    errors: seq<Option<VerifyError>>, error: Option<VerifyError>)
    requires VerdictOf(sha, check, before) == FirstError(errors) && |errors| == |before|
    requires EntryError(sha, check, before + [e], |before|) == error
    ensures VerdictOf(sha, check, before + [e]) == FirstError(errors + [error])
  {
    VerdictExtend(sha, check, before, e);
    FirstErrorSnoc(errors, error);
  }

  lemma RunVerdictPush(sha: Hasher, check: Checker, base: seq<Entry>, run: seq<Event>)
    requires IsRun(sha, base, run) && run != [] && run[|run| - 1].Push?
    requires VerdictOf(sha, check, After(sha, base, run[..|run| - 1]).entries)
             == FirstError(ChainErrors(sha, check, base, run[..|run| - 1]))
    ensures VerdictOf(sha, check, After(sha, base, run).entries) == FirstError(ChainErrors(sha, check, base, run))
  {
    var init := run[..|run| - 1];
    LastPush(sha, check, base, run);
    EntriesCount(sha, base, init);
    ChainErrorsCount(sha, check, base, init);
    VerdictStep(sha, check, After(sha, base, init).entries, PushedEntry(sha, base, run),
                ChainErrors(sha, check, base, init), LastError(sha, check, base, run));
  }

  /**
   * In every interleaving the verdict on the chain is the first fault of the chain at the beginning, and
   * then of the pushes: the chain verifies exactly when it did at first and no push was stale or badly
   * signed, and otherwise verify fails at its first old fault or where the first such push landed.
   */
  lemma {:induction false} RunVerdict(sha: Hasher, check: Checker, base: seq<Entry>, run: seq<Event>)
    requires IsRun(sha, base, run)
    ensures VerdictOf(sha, check, After(sha, base, run).entries) == FirstError(ChainErrors(sha, check, base, run))
  {
    if run == [] {
      VerdictDecides(sha, check, base);
      DecidedOnce(Errors(sha, check, base), VerdictOf(sha, check, base), FirstError(Errors(sha, check, base)));
    } else {
      var init := run[..|run| - 1];
      RunVerdict(sha, check, base, init);
      if run[|run| - 1].Push? {
        RunVerdictPush(sha, check, base, run);
      } else {
        assert ChainErrors(sha, check, base, run) == ChainErrors(sha, check, base, init);
      }
    }
  }

  /** Every push of the run carries a signature that verifies under its author's key. */
  ghost predicate Honest(sha: Hasher, check: Checker, base: seq<Entry>, run: seq<Event>)
    requires IsRun(sha, base, run)
  {
    run != [] ==>
      && Honest(sha, check, base, run[..|run| - 1])
      && (run[|run| - 1].Push? ==>
            var e := PushedEntry(sha, base, run);
            e.signature.Some? && check(e.authorPodId, e.signature.value, PayloadBytes(e)))
  }

  ghost predicate NoErrors(errors: seq<Option<VerifyError>>) {
    forall i :: 0 <= i < |errors| ==> errors[i] == None
  }

  ghost predicate NeverStale(run: seq<Event>) {
    forall n :: 0 < n <= |run| ==> !EndsStale(run[..n])
  }

  lemma NeverStaleSnoc(run: seq<Event>)
    requires run != []
    ensures NeverStale(run) <==> NeverStale(run[..|run| - 1]) && !EndsStale(run)
  {
    var init := run[..|run| - 1];
    assert run[..|run|] == run;
    assert forall n :: 0 < n < |run| ==> init[..n] == run[..n];
  }

  lemma NoErrorsSnoc(errors: seq<Option<VerifyError>>, e: Option<VerifyError>)
    ensures NoErrors(errors + [e]) <==> NoErrors(errors) && e == None
  {
    assert (errors + [e])[|errors|] == e;
    assert forall i :: 0 <= i < |errors| ==> (errors + [e])[i] == errors[i];
  }

  lemma {:induction false} HonestErrors(sha: Hasher, check: Checker, base: seq<Entry>, run: seq<Event>)
    requires IsRun(sha, base, run) && Honest(sha, check, base, run)
    ensures NoErrors(ChainErrors(sha, check, base, run)) <==> Accepted(sha, check, base) && NeverStale(run)
  {
    if run == [] {
      VerdictDecides(sha, check, base);
    } else {
      var init := run[..|run| - 1];
      HonestErrors(sha, check, base, init);
      NeverStaleSnoc(run);
      if run[|run| - 1].Push? {
        NoErrorsSnoc(ChainErrors(sha, check, base, init), LastError(sha, check, base, run));
      } else {
        assert ChainErrors(sha, check, base, run) == ChainErrors(sha, check, base, init);
      }
    }
  }

  /** With signers that sign correctly, the chain verifies exactly when it did at first and no push was stale. */
  lemma HonestRunVerdict(sha: Hasher, check: Checker, base: seq<Entry>, run: seq<Event>)
    requires IsRun(sha, base, run) && Honest(sha, check, base, run)
    ensures Accepted(sha, check, After(sha, base, run).entries)
            <==> Accepted(sha, check, base) && NeverStale(run)
  {
    RunVerdict(sha, check, base, run);
    HonestErrors(sha, check, base, run);
  }

  lemma RunSnoc(sha: Hasher, base: seq<Entry>, run: seq<Event>, e: Event)
    requires IsRun(sha, base, run) && Enabled(After(sha, base, run), e)
    ensures IsRun(sha, base, run + [e]) && After(sha, base, run + [e]) == Step(sha, After(sha, base, run), e)
  {
    assert (run + [e])[..|run|] == run;
  }

  /** Uninterrupted, the three steps of a call add exactly the entry that append builds on the current chain. */
  lemma UninterruptedAppend(sha: Hasher, base: seq<Entry>, run: seq<Event>, id: nat, author: Text, operation: Text,
                            data: JsValue, timestamp: int, signature: Option<Bytes>)
    requires IsRun(sha, base, run) && id !in After(sha, base, run).started
    ensures var started := run + [Start(id, author, operation, data)];
            var drafted := started + [Draft(id, timestamp)];
            var pushed := drafted + [Push(id, signature)];
            var before := After(sha, base, run).entries;
            && IsRun(sha, base, pushed)
            && After(sha, base, pushed).entries
               == before + [NextEntry(sha, before, author, operation, data, timestamp).(signature := signature)]
  {
    var started := run + [Start(id, author, operation, data)];
    var drafted := started + [Draft(id, timestamp)];
    var pushed := drafted + [Push(id, signature)];
    CallDraftsRun(sha, base, run, Start(id, author, operation, data), timestamp);
    assert drafted == run + [Start(id, author, operation, data), Draft(id, timestamp)];
    RunSnoc(sha, base, drafted, Push(id, signature));
  }

  /** Once verify fails it gives the same answer in every later state. */
  lemma NeverRepaired(sha: Hasher, check: Checker, base: seq<Entry>, run: seq<Event>, n: nat)
    requires IsRun(sha, base, run) && n <= |run|
    ensures IsRun(sha, base, run[..n])
    ensures !Accepted(sha, check, After(sha, base, run[..n]).entries) ==>
              VerdictOf(sha, check, After(sha, base, run).entries)
              == VerdictOf(sha, check, After(sha, base, run[..n]).entries)
  {
    EntriesGrow(sha, base, run, n);
    if !Accepted(sha, check, After(sha, base, run[..n]).entries) {
      RejectedForever(sha, check, After(sha, base, run[..n]).entries, After(sha, base, run).entries);
    }
  }

  lemma StaleVerdict(sha: Hasher, check: Checker, base: seq<Entry>, stale: seq<Event>)
    requires IsRun(sha, base, stale) && EndsStale(stale)
    requires Accepted(sha, check, After(sha, base, stale[..|stale| - 1]).entries)
    ensures VerdictOf(sha, check, After(sha, base, stale).entries)
         == Invalid(SequenceMismatch, |base| + Pushes(stale) - 1)
  {
    var before := stale[..|stale| - 1];
    LastPush(sha, check, base, stale);
    EntriesCount(sha, base, before);
    VerdictExtend(sha, check, After(sha, base, before).entries, PushedEntry(sha, base, stale));
  }

  /**
   * The first stale push onto an accepted chain is reported as a sequence mismatch at its place, in that
   * state and in every later one.
   */
  lemma FirstStaleReported(sha: Hasher, check: Checker, base: seq<Entry>, stale: seq<Event>, run: seq<Event>)
    requires IsRun(sha, base, stale) && EndsStale(stale)
    requires Accepted(sha, check, After(sha, base, stale[..|stale| - 1]).entries)
    requires IsRun(sha, base, run) && stale <= run
    ensures VerdictOf(sha, check, After(sha, base, run).entries)
         == Invalid(SequenceMismatch, |base| + Pushes(stale) - 1)
  {
    StaleVerdict(sha, check, base, stale);
    assert run[..|stale|] == stale;
    NeverRepaired(sha, check, base, run, |stale|);
  }

  /** The entry that a call has drafted when nothing was pushed since it read this chain. */
  function Drafted(sha: Hasher, entries: seq<Entry>, start: Event, timestamp: int): Entry
    requires start.Start?
  {
    NextEntry(sha, entries, start.author, start.operation, start.data, timestamp)
  }

  /** The steps of two calls of which the second starts while the first waits for its signature. */
  function Overlap(a: Event, b: Event, ta: int, tb: int): seq<Event>
    requires a.Start? && b.Start?
  {
    [a, Draft(a.id, ta), b, Draft(b.id, tb)]
  }

  ghost predicate HasDrafted(s: State, id: nat, e: Entry) {
    id in s.calls && s.calls[id] == Signing(e)
  }

  lemma CallDrafts(sha: Hasher, s: State, a: Event, ta: int)
    requires a.Start? && a.id !in s.started
    ensures Enabled(Step(sha, s, a), Draft(a.id, ta))
    ensures var t := Step(sha, Step(sha, s, a), Draft(a.id, ta));
            && t.entries == s.entries && t.started == s.started + {a.id}
            && t.calls == s.calls[a.id := Signing(Drafted(sha, s.entries, a, ta))]
  {
  }

  lemma RunSnocTwice(sha: Hasher, base: seq<Entry>, run: seq<Event>, e: Event, f: Event)
    requires IsRun(sha, base, run)
    requires Enabled(After(sha, base, run), e) && Enabled(Step(sha, After(sha, base, run), e), f)
    ensures IsRun(sha, base, run + [e, f])
    ensures After(sha, base, run + [e, f]) == Step(sha, Step(sha, After(sha, base, run), e), f)
  {
    RunSnoc(sha, base, run, e);
    RunSnoc(sha, base, run + [e], f);
    assert run + [e, f] == run + [e] + [f];
  }

  lemma CallDraftsRun(sha: Hasher, base: seq<Entry>, run: seq<Event>, a: Event, ta: int)
    requires IsRun(sha, base, run) && a.Start? && a.id !in After(sha, base, run).started
    ensures IsRun(sha, base, run + [a, Draft(a.id, ta)])
    ensures var s, t := After(sha, base, run), After(sha, base, run + [a, Draft(a.id, ta)]);
            && t.entries == s.entries && t.started == s.started + {a.id}
            && t.calls == s.calls[a.id := Signing(Drafted(sha, s.entries, a, ta))]
  {
    CallDrafts(sha, After(sha, base, run), a, ta);
    RunSnocTwice(sha, base, run, a, Draft(a.id, ta));
  }

  /** From every state two new calls can come to overlap. */
  lemma OverlapRun(sha: Hasher, base: seq<Entry>, run: seq<Event>, a: Event, b: Event, ta: int, tb: int)
    requires IsRun(sha, base, run) && a.Start? && b.Start? && a.id != b.id
    requires a.id !in After(sha, base, run).started && b.id !in After(sha, base, run).started
    ensures var es, overlap := After(sha, base, run).entries, run + Overlap(a, b, ta, tb);
            && IsRun(sha, base, overlap) && After(sha, base, overlap).entries == es
            && HasDrafted(After(sha, base, overlap), a.id, Drafted(sha, es, a, ta))
            && HasDrafted(After(sha, base, overlap), b.id, Drafted(sha, es, b, tb))
  {
    var first := run + [a, Draft(a.id, ta)];
    CallDraftsRun(sha, base, run, a, ta);
    CallDraftsRun(sha, base, first, b, tb);
    assert run + Overlap(a, b, ta, tb) == first + [b, Draft(b.id, tb)];
  }

  ghost predicate NoPush(run: seq<Event>, from: nat) {
    forall r :: from <= r < |run| ==> !run[r].Push?
  }

  /** A call that has drafted its entry since the last push pushes onto the chain that it has read. */
  lemma PushIsCurrent(sha: Hasher, base: seq<Entry>, run: seq<Event>, p: nat, push: Event)
    requires IsRun(sha, base, run) && push.Push? && Enabled(After(sha, base, run), push)
    requires p < |run| && run[p].Start? && run[p].id == push.id && NoPush(run, p)
    ensures IsRun(sha, base, run + [push]) && !EndsStale(run + [push])
  {
    RunSnoc(sha, base, run, push);
    StartedOnce(sha, base, run, push.id);
    var all := run + [push];
    assert forall k :: 0 <= k < |run| ==> all[k] == run[k];
  }

  /** The chain after a push that is not stale. */
  lemma CurrentVerdict(sha: Hasher, check: Checker, base: seq<Entry>, run: seq<Event>, push: Event)
    requires IsRun(sha, base, run) && push.Push? && Enabled(After(sha, base, run), push)
    requires Accepted(sha, check, After(sha, base, run).entries)
    requires IsRun(sha, base, run + [push]) && !EndsStale(run + [push])
    requires SignatureError(check, After(sha, base, run).calls[push.id].entry.(signature := push.signature)) == None
    ensures Accepted(sha, check, After(sha, base, run + [push]).entries)
  {
    var all := run + [push];
    assert all[..|run|] == run;
    LastPush(sha, check, base, all);
    VerdictExtend(sha, check, After(sha, base, run).entries, PushedEntry(sha, base, all));
  }

  lemma StaleSnoc(sha: Hasher, check: Checker, base: seq<Entry>, run: seq<Event>, push: Event)
    requires IsRun(sha, base, run) && Accepted(sha, check, After(sha, base, run).entries)
    requires IsRun(sha, base, run + [push]) && EndsStale(run + [push])
    ensures VerdictOf(sha, check, After(sha, base, run + [push]).entries)
            == Invalid(SequenceMismatch, |After(sha, base, run).entries|)
  {
    assert (run + [push])[..|run|] == run;
    StaleVerdict(sha, check, base, run + [push]);
    EntriesCount(sha, base, run);
  }

  /** Another call that has started since the last push can push after that, and is then stale. */
  lemma SecondIsStale(sha: Hasher, base: seq<Entry>, run: seq<Event>, q: nat, a: Event, b: Event)
    requires IsRun(sha, base, run) && a.Push? && b.Push? && a.id != b.id
    requires Enabled(After(sha, base, run), a) && Enabled(After(sha, base, run), b)
    requires q < |run| && run[q].Start? && run[q].id == b.id
    ensures IsRun(sha, base, run + [a, b]) && EndsStale(run + [a, b])
    ensures |After(sha, base, run + [a]).entries| == |After(sha, base, run).entries| + 1
  {
    RunSnocTwice(sha, base, run, a, b);
    RunSnoc(sha, base, run, a);
    var all := run + [a, b];
    assert all[q] == run[q] && all[|run|] == a && all[|run| + 1] == b;
  }

  /**
   * Any two overlapping calls break an accepted chain. Both have started since the last push, in any order
   * and among any steps of other calls, and wait for their signatures. If the first to push has a good
   * signature, the chain is accepted until the other pushes too, and then verify reports a sequence mismatch.
   */
  lemma OverlapBreaksChain(sha: Hasher, check: Checker, base: seq<Entry>, run: seq<Event>, p: nat, q: nat,
                           a: Event, b: Event, x: Entry, y: Entry)
    requires IsRun(sha, base, run) && Accepted(sha, check, After(sha, base, run).entries)
    requires a.Push? && b.Push? && a.id != b.id
    requires HasDrafted(After(sha, base, run), a.id, x) && HasDrafted(After(sha, base, run), b.id, y)
    requires p < |run| && run[p].Start? && run[p].id == a.id && NoPush(run, p)
    requires q < |run| && run[q].Start? && run[q].id == b.id
    requires SignatureError(check, x.(signature := a.signature)) == None
    ensures IsRun(sha, base, run + [a]) && Accepted(sha, check, After(sha, base, run + [a]).entries)
    ensures IsRun(sha, base, run + [a, b]) && EndsStale(run + [a, b])
    ensures VerdictOf(sha, check, After(sha, base, run + [a, b]).entries)
         == Invalid(SequenceMismatch, |After(sha, base, run).entries| + 1)
  {
    PushIsCurrent(sha, base, run, p, a);
    CurrentVerdict(sha, check, base, run, a);
    SecondIsStale(sha, base, run, q, a, b);
    assert run + [a] + [b] == run + [a, b];
    StaleSnoc(sha, check, base, run + [a], b);
  }

  /**
   * A push between the start of another call and the push of that call makes verify fail then and ever
   * after, whatever else the run does and however the chain began.
   */
  lemma OverlapRejectedForever(sha: Hasher, check: Checker, base: seq<Entry>, run: seq<Event>, p: nat, r: nat, k: nat)
    requires IsRun(sha, base, run) && p < r < k < |run|
    requires run[p].Start? && run[r].Push? && run[k].Push? && run[k].id == run[p].id
    ensures !Accepted(sha, check, After(sha, base, run).entries)
  {
    var stale := run[..k + 1];
    PrefixIsRun(sha, base, run, k + 1);
    assert stale[p] == run[p] && stale[r] == run[r] && stale[k] == run[k];
    if Accepted(sha, check, After(sha, base, stale[..k]).entries) {
      StaleVerdict(sha, check, base, stale);
    } else {
      NeverRepaired(sha, check, base, stale, k);
    }
    NeverRepaired(sha, check, base, run, k + 1);
  }

  lemma OverlapPlaces(run: seq<Event>, a: Event, b: Event, ta: int, tb: int)
    requires a.Start? && b.Start?
    ensures var overlap := run + Overlap(a, b, ta, tb);
            && |overlap| == |run| + 4 && overlap[|run|] == a && overlap[|run| + 2] == b && NoPush(overlap, |run|)
  {
  }

  /** From any accepted state two new calls can overlap so. */
  lemma OverlapPossible(sha: Hasher, check: Checker, base: seq<Entry>, run: seq<Event>, a: Event, b: Event,
                        ta: int, tb: int, sa: Option<Bytes>, sb: Option<Bytes>)
    requires IsRun(sha, base, run) && a.Start? && b.Start? && a.id != b.id
    requires a.id !in After(sha, base, run).started && b.id !in After(sha, base, run).started
    requires Accepted(sha, check, After(sha, base, run).entries)
    requires SignatureError(check, Drafted(sha, After(sha, base, run).entries, a, ta).(signature := sa)) == None
    ensures var both := run + Overlap(a, b, ta, tb) + [Push(a.id, sa), Push(b.id, sb)];
            && IsRun(sha, base, both) && EndsStale(both)
            && VerdictOf(sha, check, After(sha, base, both).entries)
               == Invalid(SequenceMismatch, |After(sha, base, run).entries| + 1)
  {
    var es := After(sha, base, run).entries;
    OverlapRun(sha, base, run, a, b, ta, tb);
    OverlapPlaces(run, a, b, ta, tb);
    OverlapBreaksChain(sha, check, base, run + Overlap(a, b, ta, tb), |run|, |run| + 2, Push(a.id, sa), Push(b.id, sb),
                       Drafted(sha, es, a, ta), Drafted(sha, es, b, tb));
  }

  /** The shortest such run: the first two calls overlap on an empty chain. */
  lemma OverlapOnEmptyChain(sha: Hasher, check: Checker, alice: Text, bob: Text, operation: Text, data: JsValue,
                            sa: Option<Bytes>, sb: Option<Bytes>)
    requires SignatureError(check, Drafted(sha, [], Start(0, alice, operation, data), 1000).(signature := sa)) == None
    ensures var run := [
              Start(0, alice, operation, data), Draft(0, 1000),
              Start(1, bob, operation, data), Draft(1, 1001), Push(0, sa), Push(1, sb)];
            && IsRun(sha, [], run) && EndsStale(run)
            && VerdictOf(sha, check, After(sha, [], run).entries) == Invalid(SequenceMismatch, 1)
  {
    var a, b := Start(0, alice, operation, data), Start(1, bob, operation, data);
    OverlapPossible(sha, check, [], [], a, b, 1000, 1001, sa, sb);
    assert [] + Overlap(a, b, 1000, 1001) + [Push(0, sa), Push(1, sb)]
        == [a, Draft(0, 1000), b, Draft(1, 1001), Push(0, sa), Push(1, sb)];
  }

  /**
   * Suppose the run grew from a state where the chain was accepted by a stale push. The pushed entry
   * shares its sequence number with an earlier entry, and keeps its place whatever happens later; when
   * the two hash differently, detectFork reports a fork at or before that number.
   */
  lemma StaleForks(sha: Hasher, check: Checker, base: seq<Entry>, stale: seq<Event>, run: seq<Event>,
                   r: Option<ForkReport>)
    requires IsRun(sha, base, stale) && EndsStale(stale)
    requires Accepted(sha, check, After(sha, base, stale[..|stale| - 1]).entries)
    requires IsRun(sha, base, run) && stale <= run && IsForkOf(sha, After(sha, base, run).entries, r)
    ensures var es, k := After(sha, base, run).entries, |base| + Pushes(stale) - 1;
            var m := PushedEntry(sha, base, stale).sequence;
            && 0 <= m < k < |es|
            && es[m].sequence == m && es[k] == PushedEntry(sha, base, stale)
            && (EntryHash(sha, es[m]) != EntryHash(sha, es[k]) ==> r.Some? && r.value.ancestor < m)
  {
    var es, before := After(sha, base, run).entries, After(sha, base, stale).entries;
    StaleEntry(sha, check, base, stale);
    EntriesKept(sha, base, stale, run);
    TwiceForks(sha, before, es, PushedEntry(sha, base, stale).sequence, |base| + Pushes(stale) - 1, r);
  }

  lemma EntriesKept(sha: Hasher, base: seq<Entry>, shorter: seq<Event>, longer: seq<Event>)
    requires IsRun(sha, base, shorter) && IsRun(sha, base, longer) && shorter <= longer
    ensures After(sha, base, shorter).entries <= After(sha, base, longer).entries
  {
    assert longer[..|shorter|] == shorter;
    EntriesGrow(sha, base, longer, |shorter|);
  }

  /** Two entries with one sequence number and different hashes are a fork, whatever is added later. */
  lemma TwiceForks(sha: Hasher, before: seq<Entry>, es: seq<Entry>, m: nat, k: nat, r: Option<ForkReport>)
    requires before <= es && m < k < |before| && before[m].sequence == m == before[k].sequence && IsForkOf(sha, es, r)
    ensures es[m] == before[m] && es[k] == before[k]
    ensures EntryHash(sha, es[m]) != EntryHash(sha, es[k]) ==> r.Some? && r.value.ancestor < m
  {
    if EntryHash(sha, es[m]) != EntryHash(sha, es[k]) {
      assert Divergent(sha, es, m);
    }
  }

  lemma StaleEntry(sha: Hasher, check: Checker, base: seq<Entry>, run: seq<Event>)
    requires IsRun(sha, base, run) && EndsStale(run)
    requires Accepted(sha, check, After(sha, base, run[..|run| - 1]).entries)
    ensures var es := After(sha, base, run).entries;
            var m := PushedEntry(sha, base, run).sequence;
            && 0 <= m < |es| - 1 && es[m].sequence == m
            && es[|es| - 1] == PushedEntry(sha, base, run) && |es| == |base| + Pushes(run)
  {
    StaleBySequence(sha, base, run);
    EntriesGrow(sha, base, run, |run| - 1);
    AcceptedSequence(sha, check, After(sha, base, run[..|run| - 1]).entries, PushedEntry(sha, base, run).sequence);
  }
}
