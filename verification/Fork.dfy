/** detectFork, and its agreement with the longest common prefix of two accepted chains. */
module Fork {
  import opened Bytes
  import opened JsText
  import opened KeyList
  import opened AuditEntry
  import opened AuditChain
  import Base64url

  datatype ForkReport = ForkReport(ancestor: int, branches: seq<seq<Entry>>)

  // ----- Specification -----

  /** The entries with sequence number s, in their given order. */
  function Group(es: seq<Entry>, s: int): seq<Entry> {
    if es == [] then []
    else Group(es[..|es| - 1], s) + (if es[|es| - 1].sequence == s then [es[|es| - 1]] else [])
  }

  /** The map key under which a branch is collected: the base64url text of the entry hash. */
  function HashKey(sha: Hasher): Entry -> Text {
    (e: Entry) => Base64url.Encode(EntryHash(sha, e))
  }

  /** The distinct keys of a group in order of first occurrence. */
  function BranchKeys(key: Entry -> Text, group: seq<Entry>): seq<Text> {
    if group == [] then []
    else
      var keys := BranchKeys(key, group[..|group| - 1]);
      var k := key(group[|group| - 1]);
      if k in keys then keys else keys + [k]
  }

  function WithKey(key: Entry -> Text, group: seq<Entry>, k: Text): seq<Entry> {
    if group == [] then []
    else
      WithKey(key, group[..|group| - 1], k) + (if key(group[|group| - 1]) == k then [group[|group| - 1]] else [])
  }

  function BranchesOf(key: Entry -> Text, group: seq<Entry>): seq<seq<Entry>> {
    var keys := BranchKeys(key, group);
    seq(|keys|, i requires 0 <= i < |keys| => WithKey(key, group, keys[i]))
  }

  /** Two entries with sequence number s have different hashes. */
  ghost predicate Divergent(sha: Hasher, es: seq<Entry>, s: int) {
    exists e, f :: e in es && f in es && e.sequence == s && f.sequence == s
                   && EntryHash(sha, e) != EntryHash(sha, f)
  }

  /** What detectFork must answer: the branches at the least divergent sequence number, if any. */
  ghost predicate IsForkOf(sha: Hasher, es: seq<Entry>, r: Option<ForkReport>) {
    match r
    case None => forall s :: !Divergent(sha, es, s)
    case Some(f) =>
      && Divergent(sha, es, f.ancestor + 1)
      && (forall s :: s <= f.ancestor ==> !Divergent(sha, es, s))
      && f.branches == BranchesOf(HashKey(sha), Group(es, f.ancestor + 1))
  }

  // ----- Groups and branches -----

  lemma {:induction false} GroupMembers(es: seq<Entry>, s: int, e: Entry)
    ensures e in Group(es, s) <==> e in es && e.sequence == s
    ensures multiset(Group(es, s))[e] == if e.sequence == s then multiset(es)[e] else 0
  {
    if es != [] {
      GroupMembers(es[..|es| - 1], s, e);
      assert es == es[..|es| - 1] + [es[|es| - 1]];
    }
  }

  lemma {:induction false} BranchKeysMembers(key: Entry -> Text, group: seq<Entry>, k: Text)
    ensures k in BranchKeys(key, group) <==> exists e :: e in group && key(e) == k
  {
    if group != [] {
      var init, last := group[..|group| - 1], group[|group| - 1];
      BranchKeysMembers(key, init, k);
      assert group == init + [last];
      assert forall e :: e in group <==> e in init || e == last;
    }
  }

  lemma {:induction false} BranchKeysDistinct(key: Entry -> Text, group: seq<Entry>)
    ensures Distinct(BranchKeys(key, group))
  {
    if group != [] {
      BranchKeysDistinct(key, group[..|group| - 1]);
      var keys, k := BranchKeys(key, group[..|group| - 1]), key(group[|group| - 1]);
      assert k !in keys ==> Distinct(keys + [k]);
    }
  }

  lemma {:induction false} WithKeyMembers(key: Entry -> Text, group: seq<Entry>, k: Text, e: Entry)
    ensures e in WithKey(key, group, k) <==> e in group && key(e) == k
  {
    if group != [] {
      WithKeyMembers(key, group[..|group| - 1], k, e);
      assert group == group[..|group| - 1] + [group[|group| - 1]];
    }
  }

  /** The branches split the group by key: every entry is in exactly one of them. */
  lemma BranchesPartition(key: Entry -> Text, group: seq<Entry>, e: Entry)
    requires e in group
    ensures var bs := BranchesOf(key, group);
            exists b :: 0 <= b < |bs| && e in bs[b]
                        && forall c, f :: 0 <= c < |bs| && f in bs[c] ==> f in group && (b == c <==> key(e) == key(f))
  {
    var keys, bs := BranchKeys(key, group), BranchesOf(key, group);
    BranchKeysMembers(key, group, key(e));
    BranchKeysDistinct(key, group);
    var b :| 0 <= b < |keys| && keys[b] == key(e);
    WithKeyMembers(key, group, keys[b], e);
    assert bs[b] == WithKey(key, group, keys[b]);
    forall c, f | 0 <= c < |bs| && f in bs[c] ensures f in group && (b == c <==> key(e) == key(f)) {
      WithKeyMembers(key, group, keys[c], f);
    }
  }

  ghost predicate DivergentBy(key: Entry -> Text, es: seq<Entry>, s: int) {
    exists e, f :: e in es && f in es && e.sequence == s && f.sequence == s && key(e) != key(f)
  }

  /** A group has several branch keys exactly when two of its entries have different keys. */
  lemma DivergentGroup(key: Entry -> Text, es: seq<Entry>, s: int)
    ensures |BranchKeys(key, Group(es, s))| > 1 <==> DivergentBy(key, es, s)
  {
    var group := Group(es, s);
    if |BranchKeys(key, group)| > 1 {
      var e, f := DifferentKeys(key, group);
      GroupMembers(es, s, e);
      GroupMembers(es, s, f);
    }
    if DivergentBy(key, es, s) {
      var e, f :| e in es && f in es && e.sequence == s && f.sequence == s && key(e) != key(f);
      GroupMembers(es, s, e);
      GroupMembers(es, s, f);
      SeveralKeys(key, group, e, f);
    }
  }

  lemma DifferentKeys(key: Entry -> Text, group: seq<Entry>) returns (e: Entry, f: Entry)
    requires |BranchKeys(key, group)| > 1
    ensures e in group && f in group && key(e) != key(f)
  {
    var keys := BranchKeys(key, group);
    BranchKeysDistinct(key, group);
    BranchKeysMembers(key, group, keys[0]);
    BranchKeysMembers(key, group, keys[1]);
    e :| e in group && key(e) == keys[0];
    f :| f in group && key(f) == keys[1];
  }

  lemma SeveralKeys(key: Entry -> Text, group: seq<Entry>, e: Entry, f: Entry)
    requires e in group && f in group && key(e) != key(f)
    ensures |BranchKeys(key, group)| > 1
  {
    BranchKeysMembers(key, group, key(e));
    BranchKeysMembers(key, group, key(f));
    var keys := BranchKeys(key, group);
    var i, j :| 0 <= i < |keys| && 0 <= j < |keys| && keys[i] == key(e) && keys[j] == key(f);
    assert i != j;
  }

  /** Equal keys mean equal hashes. */
  lemma HashKeyExact(sha: Hasher, e: Entry, f: Entry)
    ensures HashKey(sha)(e) == HashKey(sha)(f) <==> EntryHash(sha, e) == EntryHash(sha, f)
  {
    if HashKey(sha)(e) == HashKey(sha)(f) {
      Base64url.EncodeInjective(EntryHash(sha, e), EntryHash(sha, f));
    }
  }

  lemma DivergentByHashKey(sha: Hasher, es: seq<Entry>, s: int)
    ensures DivergentBy(HashKey(sha), es, s) <==> Divergent(sha, es, s)
  {
    if DivergentBy(HashKey(sha), es, s) {
      var e, f :| e in es && f in es && e.sequence == s && f.sequence == s && HashKey(sha)(e) != HashKey(sha)(f);
      HashKeyExact(sha, e, f);
    }
    if Divergent(sha, es, s) {
      var e, f :| e in es && f in es && e.sequence == s && f.sequence == s && EntryHash(sha, e) != EntryHash(sha, f);
      HashKeyExact(sha, e, f);
    }
  }

  // ----- The algorithm -----

  lemma PickMember<T>(s: set<T>) returns (m: T)
    requires s != {}
    ensures m in s
  {
    m :| m in s;
  }

  lemma {:induction false} MinimumExists(s: set<int>)
    requires s != {}
    ensures exists m :: m in s && forall x :: x in s ==> m <= x
  {
    var m := PickMember(s);
    if s != {m} {
      var rest := s - {m};
      assert s == rest + {m};
      MinimumExists(rest);
      var n :| n in rest && forall x :: x in rest ==> n <= x;
      assert forall x :: x in s ==> x == m || x in rest;
      assert if m <= n then m in s else n in s;
    }
  }

  /** The numeric sort of the group keys. */
  method SortKeys(keys: set<int>) returns (sorted: seq<int>)
    ensures forall k :: k in keys <==> k in sorted
    ensures forall i, j :: 0 <= i < j < |sorted| ==> sorted[i] < sorted[j]
  {
    sorted := [];
    var rest := keys;
    while rest != {}
      invariant forall k :: k in keys <==> k in sorted || k in rest
      invariant forall i, j :: 0 <= i < j < |sorted| ==> sorted[i] < sorted[j]
      invariant forall i, k :: 0 <= i < |sorted| && k in rest ==> sorted[i] < k
      decreases rest
    {
      MinimumExists(rest);
      var m :| m in rest && forall x :: x in rest ==> m <= x;
      sorted, rest := sorted + [m], rest - {m};
    }
  }

  method GroupBySequence(entries: seq<Entry>) returns (bySeq: map<int, seq<Entry>>)
    ensures forall s :: s in bySeq <==> Group(entries, s) != []
    ensures forall s :: s in bySeq ==> bySeq[s] == Group(entries, s)
  {
    bySeq := map[];
    for i := 0 to |entries|
      invariant forall s :: s in bySeq <==> Group(entries[..i], s) != []
      invariant forall s :: s in bySeq ==> bySeq[s] == Group(entries[..i], s)
    {
      var entry := entries[i];
      assert entries[..i + 1][..i] == entries[..i];
      if entry.sequence !in bySeq {
        bySeq := bySeq[entry.sequence := []];
      }
      bySeq := bySeq[entry.sequence := bySeq[entry.sequence] + [entry]];
    }
    assert entries[..|entries|] == entries;
  }

  /** The map holds the branches of the entries so far, and order lists its keys as they were inserted. */
  ghost predicate Collected(key: Entry -> Text, group: seq<Entry>, order: seq<Text>, branchMap: map<Text, seq<Entry>>) {
    && order == BranchKeys(key, group)
    && (forall k :: k in branchMap <==> k in order)
    && (forall k :: k in order ==> branchMap[k] == WithKey(key, group, k))
  }

  lemma AbsentKey(key: Entry -> Text, group: seq<Entry>, k: Text)
    requires k !in BranchKeys(key, group)
    ensures WithKey(key, group, k) == []
  {
    BranchKeysMembers(key, group, k);
    if WithKey(key, group, k) != [] {
      var e := WithKey(key, group, k)[0];
      WithKeyMembers(key, group, k, e);
    }
  }

  lemma WithKeySnoc(key: Entry -> Text, group: seq<Entry>, e: Entry, k: Text)
    ensures WithKey(key, group + [e], k) == WithKey(key, group, k) + (if key(e) == k then [e] else [])
  {
    assert (group + [e])[..|group|] == group;
  }

  lemma CollectSnoc(key: Entry -> Text, group: seq<Entry>, order: seq<Text>, branchMap: map<Text, seq<Entry>>, e: Entry)
    requires Collected(key, group, order, branchMap)
    ensures var k := key(e);
            Collected(key, group + [e], if k in order then order else order + [k],
                      branchMap[k := (if k in branchMap then branchMap[k] else []) + [e]])
  {
    assert (group + [e])[..|group|] == group;
    if key(e) !in order {
      AbsentKey(key, group, key(e));
    }
    forall k ensures WithKey(key, group + [e], k) == WithKey(key, group, k) + (if key(e) == k then [e] else []) {
      WithKeySnoc(key, group, e, k);
    }
  }

  lemma SetTwice<K, V>(m: map<K, V>, k: K, v: V, w: V)
    ensures m[k := v][k := w] == m[k := w]
  {
  }

  /** Collects a group into a map from key to branch that remembers insertion order. */
  method CollectBranches(key: Entry -> Text, group: seq<Entry>)
    returns (order: seq<Text>, branchMap: map<Text, seq<Entry>>)
    ensures order == BranchKeys(key, group)
    ensures forall k :: k in branchMap <==> k in order
    ensures forall k :: k in order ==> branchMap[k] == WithKey(key, group, k)
  {
    order, branchMap := [], map[];
    for i := 0 to |group|
      invariant Collected(key, group[..i], order, branchMap)
    {
      var hs := key(group[i]);
      CollectSnoc(key, group[..i], order, branchMap, group[i]);
      assert group[..i + 1] == group[..i] + [group[i]];
      if hs !in branchMap {
        SetTwice(branchMap, hs, [], [] + [group[i]]);
        order, branchMap := order + [hs], branchMap[hs := []];
      }
      branchMap := branchMap[hs := branchMap[hs] + [group[i]]];
    }
    assert group[..|group|] == group;
  }

  /** The branches at the least sequence number where the key takes several values. */
  ghost predicate IsForkBy(key: Entry -> Text, es: seq<Entry>, r: Option<ForkReport>) {
    match r
    case None => forall s :: !DivergentBy(key, es, s)
    case Some(f) =>
      && DivergentBy(key, es, f.ancestor + 1)
      && (forall s :: s <= f.ancestor ==> !DivergentBy(key, es, s))
      && f.branches == BranchesOf(key, Group(es, f.ancestor + 1))
  }

  method DetectForkBy(key: Entry -> Text, entries: seq<Entry>) returns (r: Option<ForkReport>)
    ensures IsForkBy(key, entries, r)
  {
    if |entries| == 0 {
      return None;
    }
    var bySeq := GroupBySequence(entries);
    var seqs := SortKeys(bySeq.Keys);
    for i := 0 to |seqs|
      invariant forall j :: 0 <= j < i ==> !DivergentBy(key, entries, seqs[j])
    {
      assert seqs[i] in seqs;
      var group := bySeq[seqs[i]];
      DivergentGroup(key, entries, seqs[i]);
      var order, branchMap := CollectBranches(key, group);
      if |order| > 1 {
        NotDivergentBelow(key, entries, seqs, i);
        var branches := seq(|order|, b requires 0 <= b < |order| && order[b] in branchMap => branchMap[order[b]]);
        assert branches == BranchesOf(key, group);
        return Some(ForkReport(seqs[i] - 1, branches));
      }
    }
    NotDivergentBelow(key, entries, seqs, |seqs|);
    return None;
  }

  lemma NotDivergentBelow(key: Entry -> Text, es: seq<Entry>, seqs: seq<int>, i: nat)
    requires i <= |seqs| && forall j :: 0 <= j < i ==> !DivergentBy(key, es, seqs[j])
    requires forall t :: Group(es, t) != [] ==> t in seqs
    requires forall j, k :: 0 <= j < k < |seqs| ==> seqs[j] < seqs[k]
    ensures forall s :: (i < |seqs| ==> s < seqs[i]) ==> !DivergentBy(key, es, s)
  {
    forall s | i < |seqs| ==> s < seqs[i] ensures !DivergentBy(key, es, s) {
      if Group(es, s) != [] {
        var j :| 0 <= j < |seqs| && seqs[j] == s;
        assert j < i;
      } else {
        DivergentGroup(key, es, s);
      }
    }
  }

  method DetectFork(sha: Hasher, entries: seq<Entry>) returns (r: Option<ForkReport>)
    ensures IsForkOf(sha, entries, r)
    ensures r.Some? ==> InOrder(sha, entries, r.value)
  {
    r := DetectForkBy(HashKey(sha), entries);
    ForkByHash(sha, entries, r);
    if r.Some? {
      ForkInOrder(sha, entries, r.value);
    }
  }

  lemma ForkByHash(sha: Hasher, es: seq<Entry>, r: Option<ForkReport>)
    requires IsForkBy(HashKey(sha), es, r)
    ensures IsForkOf(sha, es, r)
  {
    forall s ensures DivergentBy(HashKey(sha), es, s) <==> Divergent(sha, es, s) {
      DivergentByHashKey(sha, es, s);
    }
  }

  /** detectFork is silent exactly when entries with equal sequence numbers have equal hashes. */
  lemma SilentExactly(sha: Hasher, es: seq<Entry>, r: Option<ForkReport>)
    requires IsForkOf(sha, es, r)
    ensures r.None? <==> forall e, f :: e in es && f in es && e.sequence == f.sequence ==>
                                          EntryHash(sha, e) == EntryHash(sha, f)
  {
    if r.None? {
      forall e, f | e in es && f in es && e.sequence == f.sequence
        ensures EntryHash(sha, e) == EntryHash(sha, f)
      {
        assert !Divergent(sha, es, e.sequence);
      }
    }
  }

  // ----- Branches by position -----

  /**
   * idx names, branch by branch, the positions of es that the branches list: in order, with branches ordered by
   * their first positions. All entries with sequence number s are listed, and no others.
   */
  ghost predicate ListedBy(es: seq<Entry>, s: int, branches: seq<seq<Entry>>, idx: seq<seq<nat>>) {
    && |idx| == |branches|
    && (forall b :: 0 <= b < |idx| ==> BranchListed(es, s, branches[b], idx[b]))
    && (forall b, c :: 0 <= b < c < |idx| ==> idx[b][0] < idx[c][0])
    && (forall p :: 0 <= p < |es| && es[p].sequence == s ==> exists b :: 0 <= b < |idx| && p in idx[b])
  }

  /** One branch: entries with sequence number s, in the order of their positions. */
  ghost predicate BranchListed(es: seq<Entry>, s: int, branch: seq<Entry>, ps: seq<nat>) {
    && |ps| == |branch| > 0
    && (forall j :: 0 <= j < |ps| ==> ps[j] < |es| && branch[j] == es[ps[j]] && es[ps[j]].sequence == s)
    && (forall i, j :: 0 <= i < j < |ps| ==> ps[i] < ps[j])
  }

  /** Entries have the same hash exactly when they are in the same branch. */
  ghost predicate SplitByHash(sha: Hasher, branches: seq<seq<Entry>>) {
    forall b, c, e, f :: 0 <= b < |branches| && 0 <= c < |branches| && e in branches[b] && f in branches[c] ==>
      (EntryHash(sha, e) == EntryHash(sha, f) <==> b == c)
  }

  /** The positions of the entries with sequence number s and key k. */
  function Places(key: Entry -> Text, es: seq<Entry>, s: int, k: Text): seq<nat> {
    if es == [] then []
    else
      var n := |es| - 1;
      Places(key, es[..n], s, k) + (if es[n].sequence == s && key(es[n]) == k then [n] else [])
  }

  ghost predicate ArePlaces(key: Entry -> Text, es: seq<Entry>, s: int, k: Text, ps: seq<nat>) {
    && (forall j :: 0 <= j < |ps| ==> ps[j] < |es| && es[ps[j]].sequence == s && key(es[ps[j]]) == k)
    && (forall i, j :: 0 <= i < j < |ps| ==> ps[i] < ps[j])
    && (forall p: nat :: p < |es| && es[p].sequence == s && key(es[p]) == k ==> p in ps)
  }

  lemma {:induction false} PlacesExact(key: Entry -> Text, es: seq<Entry>, s: int, k: Text)
    ensures ArePlaces(key, es, s, k, Places(key, es, s, k))
  {
    if es != [] {
      PlacesExact(key, es[..|es| - 1], s, k);
    }
  }

  /** A branch lists the entries at the places of its key. */
  lemma {:induction false} BranchAtPlaces(key: Entry -> Text, es: seq<Entry>, s: int, k: Text)
    ensures var ps, branch := Places(key, es, s, k), WithKey(key, Group(es, s), k);
            |branch| == |ps| && forall j :: 0 <= j < |ps| ==> ps[j] < |es| && branch[j] == es[ps[j]]
  {
    if es != [] {
      var init, last := es[..|es| - 1], es[|es| - 1];
      BranchAtPlaces(key, init, s, k);
      if last.sequence == s {
        assert (Group(init, s) + [last])[..|Group(init, s)|] == Group(init, s);
      } else {
        assert Group(es, s) == Group(init, s);
      }
    }
  }

  lemma BranchIsListed(key: Entry -> Text, es: seq<Entry>, s: int, k: Text)
    requires Places(key, es, s, k) != []
    ensures BranchListed(es, s, WithKey(key, Group(es, s), k), Places(key, es, s, k))
  {
    BranchAtPlaces(key, es, s, k);
    PlacesExact(key, es, s, k);
  }

  /** Keys are listed in the order of their first places. */
  ghost predicate ByFirstPlace(key: Entry -> Text, es: seq<Entry>, s: int, keys: seq<Text>) {
    && (forall b :: 0 <= b < |keys| ==> Places(key, es, s, keys[b]) != [])
    && (forall b, c :: 0 <= b < c < |keys| ==> Places(key, es, s, keys[b])[0] < Places(key, es, s, keys[c])[0])
  }

  lemma {:induction false} KeysByPlace(key: Entry -> Text, es: seq<Entry>, s: int)
    ensures ByFirstPlace(key, es, s, BranchKeys(key, Group(es, s)))
  {
    if es != [] {
      var init, last := es[..|es| - 1], es[|es| - 1];
      var before := BranchKeys(key, Group(init, s));
      KeysByPlace(key, init, s);
      FirstPlacesStay(key, es, s, before);
      if last.sequence == s {
        assert (Group(init, s) + [last])[..|Group(init, s)|] == Group(init, s);
        if key(last) !in before {
          NoPlaces(key, init, s, key(last));
          LaterKeyLast(key, es, s, before, key(last));
        }
      } else {
        assert Group(es, s) == Group(init, s);
      }
    }
  }

  lemma FirstPlaceStays(key: Entry -> Text, es: seq<Entry>, s: int, k: Text)
    requires es != [] && Places(key, es[..|es| - 1], s, k) != []
    ensures Places(key, es, s, k) != [] && Places(key, es, s, k)[0] == Places(key, es[..|es| - 1], s, k)[0] < |es| - 1
  {
    PlacesExact(key, es[..|es| - 1], s, k);
  }

  lemma FirstPlacesStay(key: Entry -> Text, es: seq<Entry>, s: int, keys: seq<Text>)
    requires es != [] && ByFirstPlace(key, es[..|es| - 1], s, keys)
    ensures ByFirstPlace(key, es, s, keys)
    ensures forall b :: 0 <= b < |keys| ==> Places(key, es, s, keys[b])[0] < |es| - 1
  {
    forall b | 0 <= b < |keys|
      ensures Places(key, es, s, keys[b]) != []
      ensures Places(key, es, s, keys[b])[0] == Places(key, es[..|es| - 1], s, keys[b])[0] < |es| - 1
    {
      FirstPlaceStays(key, es, s, keys[b]);
    }
  }

  lemma LaterKeyLast(key: Entry -> Text, es: seq<Entry>, s: int, keys: seq<Text>, k: Text)
    requires es != [] && ByFirstPlace(key, es, s, keys) && Places(key, es[..|es| - 1], s, k) == []
    requires forall b :: 0 <= b < |keys| ==> Places(key, es, s, keys[b])[0] < |es| - 1
    requires es[|es| - 1].sequence == s && key(es[|es| - 1]) == k
    ensures ByFirstPlace(key, es, s, keys + [k])
  {
    assert Places(key, es, s, k) == [|es| - 1];
  }

  lemma NoPlaces(key: Entry -> Text, es: seq<Entry>, s: int, k: Text)
    requires k !in BranchKeys(key, Group(es, s))
    ensures Places(key, es, s, k) == []
  {
    var ps := Places(key, es, s, k);
    PlacesExact(key, es, s, k);
    BranchKeysMembers(key, Group(es, s), k);
    if ps != [] {
      var e := es[ps[0]];
      GroupMembers(es, s, e);
    }
  }

  lemma PlaceListsComplete(key: Entry -> Text, es: seq<Entry>, s: int, p: nat) returns (b: nat)
    requires p < |es| && es[p].sequence == s
    ensures b < |BranchKeys(key, Group(es, s))| && p in Places(key, es, s, BranchKeys(key, Group(es, s))[b])
  {
    var keys := BranchKeys(key, Group(es, s));
    GroupMembers(es, s, es[p]);
    BranchKeysMembers(key, Group(es, s), key(es[p]));
    b :| 0 <= b < |keys| && keys[b] == key(es[p]);
    PlacesExact(key, es, s, keys[b]);
  }

  /** The branches of a sequence number, by position in the input. */
  lemma BranchesInOrder(key: Entry -> Text, es: seq<Entry>, s: int) returns (idx: seq<seq<nat>>)
    ensures ListedBy(es, s, BranchesOf(key, Group(es, s)), idx)
  {
    var keys := BranchKeys(key, Group(es, s));
    idx := seq(|keys|, b requires 0 <= b < |keys| => Places(key, es, s, keys[b]));
    KeysByPlace(key, es, s);
    forall b | 0 <= b < |keys| ensures BranchListed(es, s, BranchesOf(key, Group(es, s))[b], idx[b]) {
      BranchIsListed(key, es, s, keys[b]);
    }
    forall p | 0 <= p < |es| && es[p].sequence == s ensures exists b :: 0 <= b < |idx| && p in idx[b] {
      var b := PlaceListsComplete(key, es, s, p);
      assert p in idx[b];
    }
  }

  lemma BranchesSplit(sha: Hasher, group: seq<Entry>)
    ensures SplitByHash(sha, BranchesOf(HashKey(sha), group))
  {
    var key, bs := HashKey(sha), BranchesOf(HashKey(sha), group);
    forall b, c, e, f | 0 <= b < |bs| && 0 <= c < |bs| && e in bs[b] && f in bs[c]
      ensures EntryHash(sha, e) == EntryHash(sha, f) <==> b == c
    {
      SameBranch(key, group, b, c, e, f);
      HashKeyExact(sha, e, f);
    }
  }

  lemma SameBranch(key: Entry -> Text, group: seq<Entry>, b: nat, c: nat, e: Entry, f: Entry)
    requires var bs := BranchesOf(key, group); b < |bs| && c < |bs| && e in bs[b] && f in bs[c]
    ensures key(e) == key(f) <==> b == c
  {
    var keys := BranchKeys(key, group);
    WithKeyMembers(key, group, keys[b], e);
    WithKeyMembers(key, group, keys[c], f);
    BranchKeysDistinct(key, group);
  }

  ghost predicate InOrder(sha: Hasher, es: seq<Entry>, r: ForkReport) {
    SplitByHash(sha, r.branches) && exists idx :: |idx| > 1 && ListedBy(es, r.ancestor + 1, r.branches, idx)
  }

  /** What detectFork reports, by position in its input. */
  lemma ForkInOrder(sha: Hasher, es: seq<Entry>, r: ForkReport)
    requires IsForkOf(sha, es, Some(r))
    ensures InOrder(sha, es, r)
  {
    var idx := BranchesInOrder(HashKey(sha), es, r.ancestor + 1);
    BranchesSplit(sha, Group(es, r.ancestor + 1));
    DivergentByHashKey(sha, es, r.ancestor + 1);
    DivergentGroup(HashKey(sha), es, r.ancestor + 1);
  }

  // ----- Fork detection and longest common prefix -----

  /** The number of leading positions at which the chains sign the same bytes. */
  function CommonLength(xs: seq<Entry>, ys: seq<Entry>): (n: nat)
    ensures n <= |xs| && n <= |ys|
  {
    if xs == [] || ys == [] || PayloadBytes(xs[0]) != PayloadBytes(ys[0]) then 0
    else 1 + CommonLength(xs[1..], ys[1..])
  }

  lemma {:induction false} CommonLengthIsLongest(xs: seq<Entry>, ys: seq<Entry>)
    ensures var n := CommonLength(xs, ys);
            && AgreeOn(xs, ys, n)
            && (n < |xs| && n < |ys| ==> !SameSigned(xs[n], ys[n]))
  {
    if xs != [] && ys != [] {
      PayloadExact(xs[0], ys[0]);
      if PayloadBytes(xs[0]) == PayloadBytes(ys[0]) {
        CommonLengthIsLongest(xs[1..], ys[1..]);
        AgreeOnCons(xs, ys, CommonLength(xs[1..], ys[1..]));
      }
    }
  }

  lemma AgreeOnCons(xs: seq<Entry>, ys: seq<Entry>, n: nat)
    requires xs != [] && ys != [] && SameSigned(xs[0], ys[0]) && AgreeOn(xs[1..], ys[1..], n)
    ensures AgreeOn(xs, ys, n + 1)
  {
    forall i | 0 <= i < n + 1 ensures SameSigned(xs[i], ys[i]) {
      if i > 0 {
        assert xs[i] == xs[1..][i - 1] && ys[i] == ys[1..][i - 1];
      }
    }
  }

  /** The first position, if any, where the chains hash different bytes to the same digest. */
  function ForkCollision(sha: Hasher, xs: seq<Entry>, ys: seq<Entry>): (c: Option<Collision>)
    ensures c.Some? ==> IsCollision(sha, c.value)
  {
    if xs == [] || ys == [] then None
    else if PayloadBytes(xs[0]) != PayloadBytes(ys[0]) && EntryHash(sha, xs[0]) == EntryHash(sha, ys[0]) then
      Some(Collision(PayloadBytes(xs[0]), PayloadBytes(ys[0])))
    else ForkCollision(sha, xs[1..], ys[1..])
  }

  lemma {:induction false} NoForkCollision(sha: Hasher, xs: seq<Entry>, ys: seq<Entry>, i: nat)
    requires ForkCollision(sha, xs, ys) == None && i < |xs| && i < |ys|
    ensures EntryHash(sha, xs[i]) == EntryHash(sha, ys[i]) <==> SameSigned(xs[i], ys[i])
  {
    if i == 0 {
      PayloadExact(xs[0], ys[0]);
    } else {
      NoForkCollision(sha, xs[1..], ys[1..], i - 1);
    }
  }

  /** Once two accepted chains sign different things they never sign the same thing again. */
  lemma {:induction false} NeverRejoin(
    sha: Hasher, checkX: Checker, xs: seq<Entry>, checkY: Checker, ys: seq<Entry>, n: nat, i: nat)
    requires Accepted(sha, checkX, xs) && Accepted(sha, checkY, ys) && ForkCollision(sha, xs, ys) == None
    requires n <= i < |xs| && i < |ys| && !SameSigned(xs[n], ys[n])
    ensures !SameSigned(xs[i], ys[i])
    decreases i
  {
    if n < i && SameSigned(xs[i], ys[i]) {
      PayloadExact(xs[i], ys[i]);
      BindingStep(sha, checkX, xs, i, checkY, ys, i);
      NoForkCollision(sha, xs, ys, i - 1);
      NeverRejoin(sha, checkX, xs, checkY, ys, n, i - 1);
    }
  }

  lemma AcceptedSequence(sha: Hasher, check: Checker, xs: seq<Entry>, i: nat)
    requires Accepted(sha, check, xs) && i < |xs|
    ensures xs[i].sequence == i
  {
    assert EntryError(sha, check, xs, i) == None;
  }

  /** es holds the entries of both chains, in any order. */
  ghost predicate Mixes(es: seq<Entry>, xs: seq<Entry>, ys: seq<Entry>) {
    multiset(es) == multiset(xs) + multiset(ys)
  }

  lemma MixedMember(
    sha: Hasher, checkX: Checker, xs: seq<Entry>, checkY: Checker, ys: seq<Entry>, es: seq<Entry>, e: Entry)
    requires Accepted(sha, checkX, xs) && Accepted(sha, checkY, ys) && Mixes(es, xs, ys)
    ensures e in es <==>
              || (0 <= e.sequence < |xs| && xs[e.sequence] == e)
              || (0 <= e.sequence < |ys| && ys[e.sequence] == e)
  {
    assert e in es <==> e in multiset(es);
    assert e in multiset(es) <==> e in xs || e in ys;
    if e in xs {
      var i :| 0 <= i < |xs| && xs[i] == e;
      AcceptedSequence(sha, checkX, xs, i);
    }
    if e in ys {
      var i :| 0 <= i < |ys| && ys[i] == e;
      AcceptedSequence(sha, checkY, ys, i);
    }
  }

  /** Members of the mixed entries with sequence number s come from position s of either chain. */
  lemma MixedDivergence(
    sha: Hasher, checkX: Checker, xs: seq<Entry>, checkY: Checker, ys: seq<Entry>, es: seq<Entry>, s: int)
    requires Accepted(sha, checkX, xs) && Accepted(sha, checkY, ys) && Mixes(es, xs, ys)
    ensures Divergent(sha, es, s)
            <==> 0 <= s < |xs| && s < |ys| && EntryHash(sha, xs[s]) != EntryHash(sha, ys[s])
  {
    if Divergent(sha, es, s) {
      var e, f :| e in es && f in es && e.sequence == s && f.sequence == s && EntryHash(sha, e) != EntryHash(sha, f);
      MixedMember(sha, checkX, xs, checkY, ys, es, e);
      MixedMember(sha, checkX, xs, checkY, ys, es, f);
    }
    if 0 <= s < |xs| && s < |ys| && EntryHash(sha, xs[s]) != EntryHash(sha, ys[s]) {
      AcceptedSequence(sha, checkX, xs, s);
      AcceptedSequence(sha, checkY, ys, s);
      MixedMember(sha, checkX, xs, checkY, ys, es, xs[s]);
      MixedMember(sha, checkX, xs, checkY, ys, es, ys[s]);
    }
  }

  lemma AcceptedCount(sha: Hasher, check: Checker, xs: seq<Entry>, s: nat, e: Entry)
    requires Accepted(sha, check, xs) && s < |xs| && e.sequence == s
    ensures multiset(xs)[e] == if e == xs[s] then 1 else 0
  {
    var before, after := xs[..s], xs[s + 1..];
    assert xs == before + [xs[s]] + after;
    forall i | 0 <= i < |xs| ensures xs[i].sequence == i {
      AcceptedSequence(sha, check, xs, i);
    }
    assert e !in before && e !in after;
    assert multiset(xs)[e] == multiset(before)[e] + multiset([xs[s]])[e] + multiset(after)[e];
  }

  /** The group at a shared position holds just the two entries of the chains. */
  lemma MixedGroup(
    sha: Hasher, checkX: Checker, xs: seq<Entry>, checkY: Checker, ys: seq<Entry>, es: seq<Entry>, s: nat)
    requires Accepted(sha, checkX, xs) && Accepted(sha, checkY, ys) && Mixes(es, xs, ys)
    requires s < |xs| && s < |ys|
    ensures Group(es, s) == [xs[s], ys[s]] || Group(es, s) == [ys[s], xs[s]]
  {
    var group := Group(es, s);
    AcceptedSequence(sha, checkX, xs, s);
    AcceptedSequence(sha, checkY, ys, s);
    forall e ensures multiset(group)[e] == multiset{xs[s], ys[s]}[e] {
      GroupMembers(es, s, e);
      if e.sequence == s {
        AcceptedCount(sha, checkX, xs, s, e);
        AcceptedCount(sha, checkY, ys, s, e);
      }
    }
    PairFromMultiset(group, xs[s], ys[s]);
  }

  lemma PairFromMultiset<T>(s: seq<T>, a: T, b: T)
    requires multiset(s) == multiset{a, b}
    ensures s == [a, b] || s == [b, a]
  {
    assert |s| == |multiset(s)| == 2;
    assert s == [s[0], s[1]];
    assert multiset(s) == multiset{s[0], s[1]};
    assert s[0] in multiset{a, b} && s[1] in multiset{a, b};
    assert multiset{s[0], s[1]} - multiset{s[0]} == multiset{s[1]};
    if s[0] == a {
      assert multiset{a, b} - multiset{a} == multiset{b};
      assert s[1] in multiset{b};
    } else {
      assert multiset{a, b} - multiset{b} == multiset{a};
      assert s[1] in multiset{a};
    }
  }

  lemma TwoBranches(key: Entry -> Text, a: Entry, b: Entry)
    requires key(a) != key(b)
    ensures BranchesOf(key, [a, b]) == [[a], [b]]
  {
    assert [a, b][..1] == [a] && [a][..0] == [];
    assert BranchKeys(key, [a]) == [key(a)];
    assert BranchKeys(key, [a, b]) == [key(a), key(b)];
    assert WithKey(key, [a], key(a)) == [a] && WithKey(key, [a], key(b)) == [];
    assert WithKey(key, [a, b], key(a)) == [a] && WithKey(key, [a, b], key(b)) == [b];
  }

  /**
   * Unless the chains themselves exhibit a collision, detectFork on their mixed entries reports nothing
   * exactly when one chain extends the other; otherwise it reports the last common position and the two
   * entries after it, and the chains sign different things at every later shared position.
   */
  lemma ForkIsLongestCommonPrefix(
    sha: Hasher, checkX: Checker, xs: seq<Entry>, checkY: Checker, ys: seq<Entry>, es: seq<Entry>,
    r: Option<ForkReport>)
    requires Accepted(sha, checkX, xs) && Accepted(sha, checkY, ys) && Mixes(es, xs, ys)
    requires IsForkOf(sha, es, r)
    ensures match ForkCollision(sha, xs, ys)
            case Some(c) => IsCollision(sha, c)
            case None =>
              var n := CommonLength(xs, ys);
              && AgreeOn(xs, ys, n)
              && (r == None <==> n == |xs| || n == |ys|)
              && (r.Some? ==>
                    && (|| r.value == ForkReport(n - 1, [[xs[n]], [ys[n]]])
                        || r.value == ForkReport(n - 1, [[ys[n]], [xs[n]]]))
                    && forall i :: n <= i < |xs| && i < |ys| ==> !SameSigned(xs[i], ys[i]))
  {
    if ForkCollision(sha, xs, ys) == None {
      var n := CommonLength(xs, ys);
      CommonLengthIsLongest(xs, ys);
      forall s | s < n || n == |xs| || n == |ys| ensures !Divergent(sha, es, s) {
        MixedDivergence(sha, checkX, xs, checkY, ys, es, s);
        if 0 <= s < |xs| && s < |ys| {
          NoForkCollision(sha, xs, ys, s);
        }
      }
      if n < |xs| && n < |ys| {
        ForkAt(sha, checkX, xs, checkY, ys, es, r, n);
      }
    }
  }

  lemma ForkAt(
    sha: Hasher, checkX: Checker, xs: seq<Entry>, checkY: Checker, ys: seq<Entry>, es: seq<Entry>,
    r: Option<ForkReport>, n: nat)
    requires Accepted(sha, checkX, xs) && Accepted(sha, checkY, ys) && Mixes(es, xs, ys)
    requires IsForkOf(sha, es, r) && ForkCollision(sha, xs, ys) == None
    requires n < |xs| && n < |ys| && !SameSigned(xs[n], ys[n])
    requires forall s :: s < n ==> !Divergent(sha, es, s)
    ensures r.Some?
    ensures r.value == ForkReport(n - 1, [[xs[n]], [ys[n]]]) || r.value == ForkReport(n - 1, [[ys[n]], [xs[n]]])
    ensures forall i :: n <= i < |xs| && i < |ys| ==> !SameSigned(xs[i], ys[i])
  {
    NoForkCollision(sha, xs, ys, n);
    MixedDivergence(sha, checkX, xs, checkY, ys, es, n);
    assert r.Some? && r.value.ancestor + 1 == n;
    MixedGroup(sha, checkX, xs, checkY, ys, es, n);
    HashKeyExact(sha, xs[n], ys[n]);
    TwoBranches(HashKey(sha), xs[n], ys[n]);
    TwoBranches(HashKey(sha), ys[n], xs[n]);
    forall i | n <= i < |xs| && i < |ys| ensures !SameSigned(xs[i], ys[i]) {
      NeverRejoin(sha, checkX, xs, checkY, ys, n, i);
    }
  }

  lemma {:induction false} GroupAppend(xs: seq<Entry>, ys: seq<Entry>, s: int)
    ensures Group(xs + ys, s) == Group(xs, s) + Group(ys, s)
  {
    if ys == [] {
      assert xs + ys == xs;
    } else {
      GroupAppend(xs, ys[..|ys| - 1], s);
      assert (xs + ys)[..|xs + ys| - 1] == xs + ys[..|ys| - 1];
    }
  }

  lemma {:induction false} GroupOfNumbered(xs: seq<Entry>, s: nat)
    requires forall i :: 0 <= i < |xs| ==> xs[i].sequence == i
    ensures Group(xs, s) == if s < |xs| then [xs[s]] else []
  {
    if xs != [] {
      GroupOfNumbered(xs[..|xs| - 1], s);
    }
  }

  /** When the entries of one chain are listed before those of the other, so are the two branches. */
  lemma ForkOfTwoChains(
    sha: Hasher, checkX: Checker, xs: seq<Entry>, checkY: Checker, ys: seq<Entry>, r: Option<ForkReport>)
    requires Accepted(sha, checkX, xs) && Accepted(sha, checkY, ys) && IsForkOf(sha, xs + ys, r)
    requires ForkCollision(sha, xs, ys) == None
    ensures var n := CommonLength(xs, ys);
            r == if n == |xs| || n == |ys| then None else Some(ForkReport(n - 1, [[xs[n]], [ys[n]]]))
  {
    var n := CommonLength(xs, ys);
    ForkPlace(sha, checkX, xs, checkY, ys, xs + ys, r);
    if n < |xs| && n < |ys| {
      DifferAfterCommon(sha, xs, ys);
      BranchesOfTwo(sha, checkX, xs, checkY, ys, n);
    }
  }

  lemma ForkPlace(
    sha: Hasher, checkX: Checker, xs: seq<Entry>, checkY: Checker, ys: seq<Entry>, es: seq<Entry>,
    r: Option<ForkReport>)
    requires Accepted(sha, checkX, xs) && Accepted(sha, checkY, ys) && Mixes(es, xs, ys)
    requires IsForkOf(sha, es, r) && ForkCollision(sha, xs, ys) == None
    ensures var n := CommonLength(xs, ys);
            match r
            case None => n == |xs| || n == |ys|
            case Some(f) =>
              n < |xs| && n < |ys| && f == ForkReport(n - 1, BranchesOf(HashKey(sha), Group(es, n)))
  {
    ForkIsLongestCommonPrefix(sha, checkX, xs, checkY, ys, es, r);
    if r.Some? {
      ReportIs(sha, es, r.value, CommonLength(xs, ys));
    }
  }

  lemma ReportIs(sha: Hasher, es: seq<Entry>, f: ForkReport, n: nat)
    requires IsForkOf(sha, es, Some(f)) && f.ancestor == n - 1
    ensures f == ForkReport(n - 1, BranchesOf(HashKey(sha), Group(es, n)))
  {
  }

  lemma DifferAfterCommon(sha: Hasher, xs: seq<Entry>, ys: seq<Entry>)
    requires ForkCollision(sha, xs, ys) == None
    ensures var n := CommonLength(xs, ys);
            n < |xs| && n < |ys| ==> EntryHash(sha, xs[n]) != EntryHash(sha, ys[n])
  {
    var n := CommonLength(xs, ys);
    CommonLengthIsLongest(xs, ys);
    if n < |xs| && n < |ys| {
      NoForkCollision(sha, xs, ys, n);
    }
  }

  lemma BranchesOfTwo(sha: Hasher, checkX: Checker, xs: seq<Entry>, checkY: Checker, ys: seq<Entry>, n: nat)
    requires Accepted(sha, checkX, xs) && Accepted(sha, checkY, ys) && n < |xs| && n < |ys|
    requires EntryHash(sha, xs[n]) != EntryHash(sha, ys[n])
    ensures BranchesOf(HashKey(sha), Group(xs + ys, n)) == [[xs[n]], [ys[n]]]
  {
    AcceptedGroup(sha, checkX, xs, n);
    AcceptedGroup(sha, checkY, ys, n);
    GroupAppend(xs, ys, n);
    TwoHashBranches(sha, xs[n], ys[n]);
  }

  lemma TwoHashBranches(sha: Hasher, e: Entry, f: Entry)
    requires EntryHash(sha, e) != EntryHash(sha, f)
    ensures BranchesOf(HashKey(sha), [e] + [f]) == [[e], [f]]
  {
    HashKeyExact(sha, e, f);
    TwoBranches(HashKey(sha), e, f);
    assert [e] + [f] == [e, f];
  }

  lemma AcceptedGroup(sha: Hasher, check: Checker, xs: seq<Entry>, s: nat)
    requires Accepted(sha, check, xs) && s < |xs|
    ensures Group(xs, s) == [xs[s]]
  {
    forall i | 0 <= i < |xs| ensures xs[i].sequence == i {
      AcceptedSequence(sha, check, xs, i);
    }
    GroupOfNumbered(xs, s);
  }
}
