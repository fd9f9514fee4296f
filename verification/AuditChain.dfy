/** AuditChain: appending, verification, what an accepted chain binds, and serialisation. */
module AuditChain {
  import opened Bytes
  import opened JsText
  import opened CanonicalJson
  import opened AuditEntry

  /** Whether a signature over a payload verifies under the public key of an author. */
  type Checker = (Text, Bytes, Bytes) -> bool

  datatype VerifyError = SequenceMismatch | HashChainBroken | MissingSignature | InvalidSignature

  datatype Verdict = Valid | Invalid(error: VerifyError, failedAt: nat)

  /** GENESIS_HASH, or the hash of the entry before position i. */
  function ExpectedPrevious(sha: Hasher, entries: seq<Entry>, i: nat): Digest
    requires i <= |entries|
  {
    if i == 0 then ZERO_DIGEST else EntryHash(sha, entries[i - 1])
  }

  function SignatureError(check: Checker, e: Entry): Option<VerifyError> {
    if e.signature.None? then Some(MissingSignature)
    else if !check(e.authorPodId, e.signature.value, PayloadBytes(e)) then Some(InvalidSignature)
    else None
  }

  /** The first check that the entry at position i fails. */
  function EntryError(sha: Hasher, check: Checker, entries: seq<Entry>, i: nat): Option<VerifyError>
    requires i < |entries|
  {
    if entries[i].sequence != i then Some(SequenceMismatch)
    else if entries[i].previousHash != ExpectedPrevious(sha, entries, i) then Some(HashChainBroken)
    else SignatureError(check, entries[i])
  }

  /** The verdict on the entries from position i on: the first failing entry decides. */
  function VerdictFrom(sha: Hasher, check: Checker, entries: seq<Entry>, i: nat): (v: Verdict)
    requires i <= |entries|
    ensures v.Valid? <==> forall k :: i <= k < |entries| ==> EntryError(sha, check, entries, k) == None
    ensures v.Invalid? ==>
              && i <= v.failedAt < |entries|
              && EntryError(sha, check, entries, v.failedAt) == Some(v.error)
              && forall k :: i <= k < v.failedAt ==> EntryError(sha, check, entries, k) == None
    decreases |entries| - i
  {
    if i == |entries| then Valid
    else
      match EntryError(sha, check, entries, i)
      case None => VerdictFrom(sha, check, entries, i + 1)
      case Some(e) => Invalid(e, i)
  }

  function VerdictOf(sha: Hasher, check: Checker, entries: seq<Entry>): Verdict {
    VerdictFrom(sha, check, entries, 0)
  }

  predicate Accepted(sha: Hasher, check: Checker, entries: seq<Entry>) {
    VerdictOf(sha, check, entries) == Valid
  }

  /** A verdict is pinned down by the first failing position. */
  lemma FirstFailure(sha: Hasher, check: Checker, entries: seq<Entry>, n: nat, error: VerifyError)
    requires n < |entries| && EntryError(sha, check, entries, n) == Some(error)
    requires forall k :: 0 <= k < n ==> EntryError(sha, check, entries, k) == None
    ensures VerdictOf(sha, check, entries) == Invalid(error, n)
  {
    var v := VerdictOf(sha, check, entries);
    assert v.Invalid?;
    if v.failedAt < n {
      assert false;
    }
  }

  /**
   * What acceptance means: entry by entry the sequence number is the position, previousHash is the hash of the
   * entry before (32 zero bytes for the first), and the signature is there and verifies for the author.
   */
  lemma AcceptedMeans(sha: Hasher, check: Checker, es: seq<Entry>)
    ensures Accepted(sha, check, es) <==>
              forall i :: 0 <= i < |es| ==>
                && es[i].sequence == i
                && (i == 0 ==> |es[i].previousHash| == 32 && forall k :: 0 <= k < 32 ==> es[i].previousHash[k] == 0)
                && (i > 0 ==> es[i].previousHash == sha(PayloadBytes(es[i - 1])))
                && es[i].signature.Some?
                && check(es[i].authorPodId, es[i].signature.value, PayloadBytes(es[i]))
  {
    if Accepted(sha, check, es) {
      forall i | 0 <= i < |es|
        ensures es[i].sequence == i
        ensures i == 0 ==> |es[i].previousHash| == 32 && forall k :: 0 <= k < 32 ==> es[i].previousHash[k] == 0
        ensures i > 0 ==> es[i].previousHash == sha(PayloadBytes(es[i - 1]))
        ensures es[i].signature.Some? && check(es[i].authorPodId, es[i].signature.value, PayloadBytes(es[i]))
      {
        EntryErrorMeans(sha, check, es, i);
        assert EntryError(sha, check, es, i) == None;
      }
    } else {
      var n := VerdictOf(sha, check, es).failedAt;
      EntryErrorMeans(sha, check, es, n);
      assert EntryError(sha, check, es, n).Some? && es[n] == es[n];
    }
  }

  /** An entry that verify accepts in its place. */
  predicate Sealed(sha: Hasher, check: Checker, es: seq<Entry>, i: nat)
    requires i < |es|
  {
    && es[i].sequence == i
    && es[i].previousHash == (if i == 0 then ZERO_DIGEST else sha(PayloadBytes(es[i - 1])))
    && es[i].signature.Some?
    && check(es[i].authorPodId, es[i].signature.value, PayloadBytes(es[i]))
  }

  lemma SealedExactly(sha: Hasher, check: Checker, es: seq<Entry>)
    ensures Accepted(sha, check, es) <==> forall i :: 0 <= i < |es| ==> Sealed(sha, check, es, i)
  {
    forall i | 0 <= i < |es| ensures Sealed(sha, check, es, i) <==> EntryError(sha, check, es, i) == None {
      EntryErrorMeans(sha, check, es, i);
      ZeroPrevious(es[i].previousHash);
    }
  }

  /** The checks of one entry in their order: sequence number, hash link, presence and validity of the signature. */
  lemma EntryErrorMeans(sha: Hasher, check: Checker, es: seq<Entry>, i: nat)
    requires i < |es|
    ensures var error, e := EntryError(sha, check, es, i), es[i];
            var linked := if i == 0 then |e.previousHash| == 32 && forall k :: 0 <= k < 32 ==> e.previousHash[k] == 0
                          else e.previousHash == sha(PayloadBytes(es[i - 1]));
            var signed := e.signature.Some? && check(e.authorPodId, e.signature.value, PayloadBytes(e));
            && (error == None <==> e.sequence == i && linked && signed)
            && (error == Some(SequenceMismatch) <==> e.sequence != i)
            && (error == Some(HashChainBroken) <==> e.sequence == i && !linked)
            && (error == Some(MissingSignature) <==> e.sequence == i && linked && e.signature == None)
            && (error == Some(InvalidSignature) <==> e.sequence == i && linked && e.signature.Some? && !signed)
  {
    ZeroPrevious(es[i].previousHash);
  }

  lemma ZeroPrevious(b: Bytes)
    ensures b == ZERO_DIGEST <==> |b| == 32 && forall k :: 0 <= k < 32 ==> b[k] == 0
  {
  }

  /** The check at a position looks only at that entry and the one before it. */
  lemma EntryErrorLocal(sha: Hasher, check: Checker, xs: seq<Entry>, ys: seq<Entry>, k: nat)
    requires k < |xs| && k < |ys| && xs[k] == ys[k] && (k > 0 ==> xs[k - 1] == ys[k - 1])
    ensures EntryError(sha, check, xs, k) == EntryError(sha, check, ys, k)
  {
  }

  /**
   * failedAt is the least n for which the prefix of length n + 1 is rejected, and every longer prefix
   * is rejected for the same reason; prefixes of accepted chains are accepted.
   */
  lemma PrefixVerdict(sha: Hasher, check: Checker, entries: seq<Entry>, m: nat)
    requires m <= |entries|
    ensures VerdictOf(sha, check, entries[..m])
         == match VerdictOf(sha, check, entries)
            case Valid => Valid
            case Invalid(error, n) => if m <= n then Valid else Invalid(error, n)
  {
    var prefix := entries[..m];
    forall k | 0 <= k < m ensures EntryError(sha, check, prefix, k) == EntryError(sha, check, entries, k) {
      EntryErrorLocal(sha, check, prefix, entries, k);
    }
    match VerdictOf(sha, check, entries)
    case Valid =>
    case Invalid(error, n) =>
      if m > n {
        FirstFailure(sha, check, prefix, n, error);
      }
  }

  /** Verification of these entries gets past the first n of them. */
  ghost predicate Passes(sha: Hasher, check: Checker, entries: seq<Entry>, n: nat) {
    n <= |entries| && forall k :: 0 <= k < n ==> EntryError(sha, check, entries, k) == None
  }

  lemma PassesGrow(sha: Hasher, check: Checker, shorter: seq<Entry>, longer: seq<Entry>, n: nat)
    requires shorter <= longer && Passes(sha, check, shorter, n)
    ensures Passes(sha, check, longer, n)
  {
    forall k | 0 <= k < n ensures EntryError(sha, check, longer, k) == None {
      EntryErrorLocal(sha, check, shorter, longer, k);
    }
  }

  /** After the checks of entry i, verification of a chain that has grown meanwhile is past it or ends there. */
  lemma PassesOn(sha: Hasher, check: Checker, shorter: seq<Entry>, longer: seq<Entry>, i: nat)
    requires shorter <= longer && Passes(sha, check, shorter, i) && i < |shorter|
    ensures match EntryError(sha, check, longer, i)
            case None => Passes(sha, check, longer, i + 1)
            case Some(error) => VerdictOf(sha, check, longer) == Invalid(error, i)
  {
    PassesGrow(sha, check, shorter, longer, i);
    if EntryError(sha, check, longer, i).Some? {
      FirstFailure(sha, check, longer, i, EntryError(sha, check, longer, i).value);
    }
  }

  /** A chain that starts with a rejected chain is rejected for the same reason at the same place. */
  lemma RejectedForever(sha: Hasher, check: Checker, shorter: seq<Entry>, longer: seq<Entry>)
    requires shorter <= longer && !Accepted(sha, check, shorter)
    ensures VerdictOf(sha, check, longer) == VerdictOf(sha, check, shorter)
  {
    assert longer[..|shorter|] == shorter;
    PrefixVerdict(sha, check, longer, |shorter|);
  }

  // ----- Appending -----

  /** The unsigned entry that append builds on top of the given entries. */
  function NextEntry(sha: Hasher, entries: seq<Entry>, author: Text, operation: Text, data: JsValue, timestamp: int)
    : Entry
  {
    Entry(|entries|, author, operation, data, ExpectedPrevious(sha, entries, |entries|), timestamp, None)
  }

  /** One more entry never repairs a rejected chain, and extends an accepted one only if it checks out. */
  lemma VerdictExtend(sha: Hasher, check: Checker, entries: seq<Entry>, e: Entry)
    ensures VerdictOf(sha, check, entries + [e])
         == match VerdictOf(sha, check, entries)
            case Invalid(error, n) => Invalid(error, n)
            case Valid =>
              match EntryError(sha, check, entries + [e], |entries|)
              case None => Valid
              case Some(error) => Invalid(error, |entries|)
  {
    var all := entries + [e];
    PrefixVerdict(sha, check, all, |entries|);
    assert all[..|entries|] == entries;
    if VerdictOf(sha, check, entries).Valid? {
      var v := VerdictOf(sha, check, all);
      if v.Invalid? {
        assert v.failedAt == |entries|;
      }
    }
  }

  // ----- Binding -----

  /** Walks both chains back until the payloads differ; the pair found there is the collision. */
  function BindingCollision(xs: seq<Entry>, j: nat, ys: seq<Entry>, k: nat): Collision
    requires j < |xs| && k < |ys|
  {
    if PayloadBytes(xs[j]) != PayloadBytes(ys[k]) || j == 0 || k == 0 then
      Collision(PayloadBytes(xs[j]), PayloadBytes(ys[k]))
    else
      BindingCollision(xs, j - 1, ys, k - 1)
  }

  /** The chains agree on everything signed at the first n positions. */
  ghost predicate AgreeOn(xs: seq<Entry>, ys: seq<Entry>, n: nat) {
    n <= |xs| && n <= |ys| && forall i :: 0 <= i < n ==> SameSigned(xs[i], ys[i])
  }

  lemma AgreeOnExtend(xs: seq<Entry>, ys: seq<Entry>, n: nat)
    requires AgreeOn(xs, ys, n) && n < |xs| && n < |ys| && SameSigned(xs[n], ys[n])
    ensures AgreeOn(xs, ys, n + 1)
  {
  }

  lemma BindingStep(
    sha: Hasher, checkX: Checker, xs: seq<Entry>, j: nat, checkY: Checker, ys: seq<Entry>, k: nat)
    requires j < |xs| && EntryError(sha, checkX, xs, j) == None
    requires k < |ys| && EntryError(sha, checkY, ys, k) == None
    requires PayloadBytes(xs[j]) == PayloadBytes(ys[k])
    ensures j == k && SameSigned(xs[j], ys[k])
    ensures k > 0 ==> EntryHash(sha, xs[j - 1]) == EntryHash(sha, ys[k - 1])
  {
    PayloadExact(xs[j], ys[k]);
  }

  /**
   * One entry hash fixes the whole history before it: two accepted chains with a hash in common have
   * it at the same position and agree on everything signed up to there, or a collision is extracted.
   */
  lemma {:induction false} ChainBinding(
    sha: Hasher, checkX: Checker, xs: seq<Entry>, j: nat, checkY: Checker, ys: seq<Entry>, k: nat)
    requires Accepted(sha, checkX, xs) && Accepted(sha, checkY, ys)
    requires j < |xs| && k < |ys| && EntryHash(sha, xs[j]) == EntryHash(sha, ys[k])
    ensures IsCollision(sha, BindingCollision(xs, j, ys, k))
            || (j == k && AgreeOn(xs, ys, k + 1))
    decreases k
  {
    if PayloadBytes(xs[j]) == PayloadBytes(ys[k]) {
      BindingStep(sha, checkX, xs, j, checkY, ys, k);
      if k > 0 {
        ChainBinding(sha, checkX, xs, j - 1, checkY, ys, k - 1);
        if AgreeOn(xs, ys, k) {
          AgreeOnExtend(xs, ys, k);
        }
      } else {
        AgreeOnExtend(xs, ys, 0);
      }
    }
  }

  /** Changing what any entry but the last has signed is noticed at that entry or the next one. */
  lemma TamperLocated(sha: Hasher, check: Checker, xs: seq<Entry>, i: nat, forged: Entry)
    requires Accepted(sha, check, xs) && i + 1 < |xs| && !SameSigned(xs[i], forged)
    ensures var v := VerdictOf(sha, check, xs[i := forged]);
            || v == Invalid(HashChainBroken, i + 1)
            || (v.Invalid? && v.failedAt == i)
            || IsCollision(sha, Collision(PayloadBytes(xs[i]), PayloadBytes(forged)))
  {
    var ys := xs[i := forged];
    PayloadExact(xs[i], forged);
    forall k | 0 <= k < i ensures EntryError(sha, check, ys, k) == None {
      EntryErrorLocal(sha, check, xs, ys, k);
    }
    assert EntryError(sha, check, xs, i + 1) == None;
    var error := EntryError(sha, check, ys, i);
    if error.Some? {
      FirstFailure(sha, check, ys, i, error.value);
    } else if EntryHash(sha, forged) != EntryHash(sha, xs[i]) {
      FirstFailure(sha, check, ys, i + 1, HashChainBroken);
    }
  }

  /** A signature that is replaced by one that does not verify, or removed, is noticed at its entry and called so. */
  lemma ForgeryLocated(sha: Hasher, check: Checker, xs: seq<Entry>, i: nat, signature: Option<Bytes>)
    requires Accepted(sha, check, xs) && i < |xs|
    requires signature.Some? ==> !check(xs[i].authorPodId, signature.value, PayloadBytes(xs[i]))
    ensures VerdictOf(sha, check, xs[i := xs[i].(signature := signature)])
            == Invalid(if signature.Some? then InvalidSignature else MissingSignature, i)
  {
    var forged := xs[i].(signature := signature);
    var ys := xs[i := forged];
    assert PayloadProps(forged) == PayloadProps(xs[i]);
    forall k | 0 <= k < i ensures EntryError(sha, check, ys, k) == None {
      EntryErrorLocal(sha, check, xs, ys, k);
    }
    EntryErrorMeans(sha, check, xs, i);
    EntryErrorMeans(sha, check, ys, i);
    FirstFailure(sha, check, ys, i, if signature.Some? then InvalidSignature else MissingSignature);
  }

  // ----- Serialisation -----

  datatype ChainJson = ChainJson(chainId: Text, entries: seq<EntryJson>)

  function EntriesToJson(es: seq<Entry>): (js: seq<EntryJson>) {
    seq(|es|, i requires 0 <= i < |es| => ToJson(es[i]))
  }

  /** The entries read back in order, or None if one of them cannot be read. */
  function EntriesFromJson(js: seq<EntryJson>): Option<seq<Entry>> {
    if js == [] then Some([])
    else
      match (EntriesFromJson(js[..|js| - 1]), FromJson(js[|js| - 1]))
      case (Some(es), Some(e)) => Some(es + [e])
      case _ => None
  }

  function DropEmptySignatures(es: seq<Entry>): seq<Entry> {
    seq(|es|, i requires 0 <= i < |es| => DropEmptySignature(es[i]))
  }

  lemma EntriesSplit(es: seq<Entry>, e: Entry)
    ensures var js := EntriesToJson(es + [e]); js[..|es|] == EntriesToJson(es) && js[|es|] == ToJson(e)
    ensures DropEmptySignatures(es + [e]) == DropEmptySignatures(es) + [DropEmptySignature(e)]
  {
  }

  lemma {:induction false} EntriesRoundTrip(es: seq<Entry>)
    ensures EntriesFromJson(EntriesToJson(es)) == Some(DropEmptySignatures(es))
  {
    if es == [] {
      assert EntriesToJson(es) == [] && DropEmptySignatures(es) == [];
    } else {
      var init, last := es[..|es| - 1], es[|es| - 1];
      EntriesRoundTrip(init);
      EntryRoundTrip(last);
      EntriesSplit(init, last);
      assert es == init + [last];
    }
  }

  ghost predicate NoEmptySignature(es: seq<Entry>, n: nat)
    requires n <= |es|
  {
    forall i :: 0 <= i < n ==> es[i].signature != Some([])
  }

  lemma HashesKept(sha: Hasher, es: seq<Entry>)
    ensures forall i :: 0 <= i < |es| ==> EntryHash(sha, DropEmptySignatures(es)[i]) == EntryHash(sha, es[i])
  {
    var back := DropEmptySignatures(es);
    forall i | 0 <= i < |es| ensures EntryHash(sha, back[i]) == EntryHash(sha, es[i]) {
      assert PayloadProps(back[i]) == PayloadProps(es[i]);
    }
  }

  /** Serialising and reading back keeps every hash, and keeps the entries exactly when no signature is empty. */
  lemma SerialisationKeepsEntries(sha: Hasher, es: seq<Entry>)
    ensures var back := EntriesFromJson(EntriesToJson(es));
            && back.Some? && |back.value| == |es|
            && (forall i :: 0 <= i < |es| ==> EntryHash(sha, back.value[i]) == EntryHash(sha, es[i]))
            && (back.value == es <==> NoEmptySignature(es, |es|))
  {
    EntriesRoundTrip(es);
    HashesKept(sha, es);
    var back := DropEmptySignatures(es);
    forall i | 0 <= i < |es| ensures back[i] == es[i] <==> es[i].signature != Some([]) {
    }
  }

  /** An empty signature is read back as a missing one; every other check gives what it gave before. */
  function ErrorReadBack(signature: Option<Bytes>, before: Option<VerifyError>): Option<VerifyError> {
    if signature == Some([]) && (before == None || before == Some(InvalidSignature)) then Some(MissingSignature)
    else before
  }

  lemma ErrorAfterSerialisation(sha: Hasher, check: Checker, es: seq<Entry>, i: nat)
    requires i < |es|
    ensures EntryError(sha, check, DropEmptySignatures(es), i)
            == ErrorReadBack(es[i].signature, EntryError(sha, check, es, i))
  {
    HashesKept(sha, es);
  }

  /** What the check at each position finds. */
  function Errors(sha: Hasher, check: Checker, es: seq<Entry>): (errors: seq<Option<VerifyError>>)
    ensures |errors| == |es|
  {
    seq(|es|, i requires 0 <= i < |es| => EntryError(sha, check, es, i))
  }

  ghost predicate Decides(errors: seq<Option<VerifyError>>, v: Verdict) {
    match v
    case Valid => forall i :: 0 <= i < |errors| ==> errors[i] == None
    case Invalid(error, n) => n < |errors| && errors[n] == Some(error) && forall i :: 0 <= i < n ==> errors[i] == None
  }

  lemma VerdictDecides(sha: Hasher, check: Checker, es: seq<Entry>)
    ensures Decides(Errors(sha, check, es), VerdictOf(sha, check, es))
  {
  }

  /** The condition under which the verdict survives: no empty signature is looked at. */
  ghost predicate VerdictSurvives(es: seq<Entry>, v: Verdict)
    requires v.Invalid? ==> v.failedAt < |es|
  {
    match v
    case Valid => NoEmptySignature(es, |es|)
    case Invalid(error, n) =>
      NoEmptySignature(es, n) && (error == InvalidSignature ==> es[n].signature != Some([]))
  }

  lemma SurvivesExactly(
    es: seq<Entry>, before: seq<Option<VerifyError>>, v: Verdict, after: seq<Option<VerifyError>>, w: Verdict)
    requires |es| == |before| == |after| && Decides(before, v) && Decides(after, w)
    requires forall i :: 0 <= i < |es| ==> after[i] == ErrorReadBack(es[i].signature, before[i])
    ensures w == v <==> VerdictSurvives(es, v)
  {
  }

  /** The verdict after serialisation is the verdict before it exactly when verify looks at no empty signature. */
  lemma SerialisationKeepsVerdict(sha: Hasher, check: Checker, es: seq<Entry>)
    ensures var back := EntriesFromJson(EntriesToJson(es));
            && back.Some?
            && (VerdictOf(sha, check, back.value) == VerdictOf(sha, check, es)
                <==> VerdictSurvives(es, VerdictOf(sha, check, es)))
  {
    EntriesRoundTrip(es);
    var back := DropEmptySignatures(es);
    VerdictDecides(sha, check, es);
    VerdictDecides(sha, check, back);
    var before, after := Errors(sha, check, es), Errors(sha, check, back);
    forall i | 0 <= i < |es| ensures after[i] == ErrorReadBack(es[i].signature, before[i]) {
      ErrorAfterSerialisation(sha, check, es, i);
    }
    SurvivesExactly(es, before, VerdictOf(sha, check, es), after, VerdictOf(sha, check, back));
  }

  /** An accepted chain is accepted after serialisation exactly when no signature is empty. */
  lemma AcceptedAfterSerialisation(sha: Hasher, check: Checker, es: seq<Entry>)
    requires Accepted(sha, check, es)
    ensures var back := EntriesFromJson(EntriesToJson(es));
            && back.Some?
            && (Accepted(sha, check, back.value) <==> forall i :: 0 <= i < |es| ==> es[i].signature != Some([]))
  {
    SerialisationKeepsVerdict(sha, check, es);
  }

  /**
   * When no empty signature ever verifies, as with Ed25519, serialisation keeps the valid flag and failedAt
   * of every chain.
   */
  lemma SerialisationKeepsPlace(sha: Hasher, check: Checker, es: seq<Entry>)
    requires forall author, payload :: !check(author, [], payload)
    ensures var back := EntriesFromJson(EntriesToJson(es));
            && back.Some?
            && match (VerdictOf(sha, check, es), VerdictOf(sha, check, back.value))
               case (Valid, w) => w == Valid
               case (Invalid(_, n), w) => w.Invalid? && w.failedAt == n
  {
    EntriesRoundTrip(es);
    var back, v := DropEmptySignatures(es), VerdictOf(sha, check, es);
    forall i | 0 <= i < |es|
      ensures EntryError(sha, check, back, i) == None <==> EntryError(sha, check, es, i) == None
    {
      ErrorAfterSerialisation(sha, check, es, i);
    }
    if v.Invalid? {
      FirstFailure(sha, check, back, v.failedAt, EntryError(sha, check, back, v.failedAt).value);
    }
  }

  // ----- The chain object -----

  /** The entries of all batches, in the order of arrival. */
  function Concat(batches: seq<seq<Entry>>): seq<Entry> {
    if batches == [] then [] else batches[0] + Concat(batches[1..])
  }

  datatype ChainError = EmptyChainId | SignerFailed | UnreadableEntry

  class Chain {
    var chainId: Text
    var entries: seq<Entry>

    constructor (chainId: Text)
      ensures this.chainId == chainId && entries == []
    {
      this.chainId, entries := chainId, [];
    }

    static method Create(chainId: Text) returns (r: Result<Chain, ChainError>)
      ensures r.Err? <==> chainId == []
      ensures r.Err? ==> r.error == EmptyChainId
      ensures r.Ok? ==> fresh(r.value) && r.value.chainId == chainId && r.value.entries == []
    {
      if chainId == [] {
        return Err(EmptyChainId);
      }
      var chain := new Chain(chainId);
      r := Ok(chain);
    }

    /** append without another append in between; sign is the caller's signFn, which may reject. */
    method Append(sha: Hasher, author: Text, operation: Text, data: JsValue, timestamp: int,
                  sign: Bytes -> Result<Option<Bytes>, ChainError>, ghost check: Checker)
      returns (r: Result<Entry, ChainError>)
      modifies this`entries
      ensures var draft := NextEntry(sha, old(entries), author, operation, data, timestamp);
              match sign(PayloadBytes(draft))
              case Err(error) => r == Err(error) && entries == old(entries)
              case Ok(signature) =>
                && r == Ok(draft.(signature := signature))
                && r.value == Entry(|old(entries)|, author, operation, data,
                                    if old(entries) == [] then ZERO_DIGEST
                                    else sha(PayloadBytes(old(entries)[|old(entries)| - 1])),
                                    timestamp, signature)
                && entries == old(entries) + [r.value]
                && VerdictOf(sha, check, entries)
                   == (if VerdictOf(sha, check, old(entries)).Invalid? then VerdictOf(sha, check, old(entries))
                       else match SignatureError(check, r.value)
                            case None => Valid
                            case Some(error) => Invalid(error, |old(entries)|))
    {
      var sequence := |entries|;
      var previousHash := if sequence == 0 then ZERO_DIGEST else EntryHash(sha, entries[sequence - 1]);
      var entry := Entry(sequence, author, operation, data, previousHash, timestamp, None);
      match sign(PayloadBytes(entry))
      case Err(error) =>
        r := Err(error);
      case Ok(signature) =>
        entry := entry.(signature := signature);
        VerdictExtend(sha, check, entries, entry);
        entries := entries + [entry];
        r := Ok(entry);
    }

    /** The verification loop: sequence, hash link and signature are checked in that order. */
    method Verify(sha: Hasher, check: Checker) returns (v: Verdict)
      ensures v == VerdictOf(sha, check, entries)
      ensures v.Valid? <==> forall i :: 0 <= i < |entries| ==> Sealed(sha, check, entries, i)
    {
      SealedExactly(sha, check, entries);
      for i := 0 to |entries|
        invariant VerdictOf(sha, check, entries) == VerdictFrom(sha, check, entries, i)
      {
        var entry := entries[i];
        if entry.sequence != i {
          return Invalid(SequenceMismatch, i);
        }
        var expectedPrev := if i == 0 then ZERO_DIGEST else EntryHash(sha, entries[i - 1]);
        if entry.previousHash != expectedPrev {
          return Invalid(HashChainBroken, i);
        }
        if entry.signature.None? {
          return Invalid(MissingSignature, i);
        }
        if !check(entry.authorPodId, entry.signature.value, PayloadBytes(entry)) {
          return Invalid(InvalidSignature, i);
        }
      }
      return Valid;
    }

    /** An await during which the pending batch of entries, if there is one, is pushed by other calls. */
    method Await(arrivals: seq<seq<Entry>>) returns (rest: seq<seq<Entry>>)
      modifies this`entries
      ensures old(entries) <= entries && entries + Concat(rest) == old(entries) + Concat(arrivals)
      ensures if arrivals == [] then entries == old(entries) && rest == [] else rest == arrivals[1..]
    {
      rest := arrivals;
      if arrivals != [] {
        assert entries + arrivals[0] + Concat(arrivals[1..]) == entries + Concat(arrivals);
        entries, rest := entries + arrivals[0], arrivals[1..];
      }
    }

    /**
     * The verification loop with its awaits, during which other calls push entries. The loop looks at the
     * length again on every turn, so the verdict is that of the chain as it stands when verify returns.
     */
    method VerifyWhileAppending(sha: Hasher, check: Checker, arrivals: seq<seq<Entry>>)
      returns (v: Verdict, rest: seq<seq<Entry>>)
      modifies this`entries
      ensures v == VerdictOf(sha, check, entries)
      ensures v.Valid? <==> forall i :: 0 <= i < |entries| ==> Sealed(sha, check, entries, i)
      ensures old(entries) <= entries && entries + Concat(rest) == old(entries) + Concat(arrivals)
    {
      rest := arrivals;
      ghost var start := entries;
      var i := 0;
      while i < |entries|
        invariant start <= entries && Passes(sha, check, entries, i)
        invariant entries + Concat(rest) == start + Concat(arrivals)
        decreases |rest|, |entries| - i
      {
        ghost var before := entries;
        var error;
        error, rest := VerifyEntry(sha, check, i, rest);
        PassesOn(sha, check, before, entries, i);
        if error.Some? {
          SealedExactly(sha, check, entries);
          return Invalid(error.value, i), rest;
        }
        i := i + 1;
      }
      SealedExactly(sha, check, entries);
      v := Valid;
    }

    /** One turn of that loop: it awaits the hash of the entry before, the public key and the signature check. */
    method VerifyEntry(sha: Hasher, check: Checker, i: nat, arrivals: seq<seq<Entry>>)
      returns (error: Option<VerifyError>, rest: seq<seq<Entry>>)
      requires i < |entries|
      modifies this`entries
      ensures old(entries) <= entries && entries + Concat(rest) == old(entries) + Concat(arrivals)
      ensures |rest| <= |arrivals| && (error.None? && arrivals != [] ==> |rest| < |arrivals|)
      ensures error.None? && arrivals == [] ==> entries == old(entries)
      ensures error == EntryError(sha, check, entries, i)
    {
      rest := arrivals;
      var entry := entries[i];
      if entry.sequence != i {
        return Some(SequenceMismatch), rest;
      }
      var expectedPrev := ZERO_DIGEST;
      if i > 0 {
        var previous := entries[i - 1];
        rest := Await(rest);
        expectedPrev := EntryHash(sha, previous);
      }
      if entry.previousHash != expectedPrev {
        return Some(HashChainBroken), rest;
      }
      if entry.signature.None? {
        return Some(MissingSignature), rest;
      }
      rest := Await(rest);
      rest := Await(rest);
      var valid := check(entry.authorPodId, entry.signature.value, PayloadBytes(entry));
      error := if valid then None else Some(InvalidSignature);
    }

    method ToJSON() returns (json: ChainJson)
      ensures json == ChainJson(chainId, EntriesToJson(entries))
      ensures |json.entries| == |entries| && forall i :: 0 <= i < |entries| ==> json.entries[i] == ToJson(entries[i])
    {
      json := ChainJson(chainId, EntriesToJson(entries));
    }

    static method FromJSON(json: ChainJson) returns (r: Result<Chain, ChainError>)
      ensures json.chainId == [] ==> r == Err(EmptyChainId)
      ensures json.chainId != [] ==>
                match EntriesFromJson(json.entries)
                case None => r == Err(UnreadableEntry)
                case Some(es) => r.Ok? && fresh(r.value) && r.value.chainId == json.chainId && r.value.entries == es
      ensures r.Ok? ==> |r.value.entries| == |json.entries|
      ensures r.Ok? ==> forall i :: 0 <= i < |json.entries| ==> FromJson(json.entries[i]) == Some(r.value.entries[i])
      ensures r == Err(UnreadableEntry) ==> exists i :: 0 <= i < |json.entries| && FromJson(json.entries[i]) == None
    {
      EntriesFromJsonMeans(json.entries);
      r := Create(json.chainId);
      if r.Err? {
        return;
      }
      var chain := r.value;
      for i := 0 to |json.entries|
        invariant fresh(chain) && chain.chainId == json.chainId
        invariant EntriesFromJson(json.entries[..i]) == Some(chain.entries)
      {
        assert json.entries[..i + 1][..i] == json.entries[..i];
        match FromJson(json.entries[i])
        case None =>
          UnreadableStays(json.entries, i + 1);
          return Err(UnreadableEntry);
        case Some(e) =>
          chain.entries := chain.entries + [e];
      }
      assert json.entries[..|json.entries|] == json.entries;
    }
  }

  /** The entries are read one by one in their order, and one that cannot be read spoils the list. */
  lemma {:induction false} EntriesFromJsonMeans(js: seq<EntryJson>)
    ensures match EntriesFromJson(js)
            case None => exists i :: 0 <= i < |js| && FromJson(js[i]) == None
            case Some(es) => |es| == |js| && forall i :: 0 <= i < |js| ==> FromJson(js[i]) == Some(es[i])
  {
    if js != [] {
      EntriesFromJsonMeans(js[..|js| - 1]);
    }
  }

  lemma {:induction false} UnreadableStays(js: seq<EntryJson>, n: nat)
    requires n <= |js| && EntriesFromJson(js[..n]) == None
    ensures EntriesFromJson(js) == None
  {
    if n < |js| {
      assert js[..|js| - 1][..n] == js[..n];
      UnreadableStays(js[..|js| - 1], n);
    } else {
      assert js[..n] == js;
    }
  }
}
