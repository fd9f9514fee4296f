/** AppStore: published manifests, install counts and the ranking by popularity. */
module AppStore {
  import opened JsText
  import opened KeyList
  import opened AppRegistry

  /** The two maps of the store; order is the insertion order of the manifest map. */
  datatype Store = Store(order: seq<Text>, manifests: map<Text, AppManifest>, installCounts: map<Text, nat>)

  const EMPTY_STORE := Store([], map[], map[])

  datatype Request =
    | Publish(manifest: AppManifest)
    | Unpublish(appId: Text, requesterPodId: Text)
    | AddInstallCount(appId: Text)

  predicate Refuses(s: Store, r: Request) {
    match r
    case Publish(_) => false
    case Unpublish(id, requester) => id !in s.manifests || s.manifests[id].author != requester
    case AddInstallCount(id) => id !in s.manifests
  }

  function CountOf(s: Store, id: Text): nat {
    if id in s.installCounts then s.installCounts[id] else 0
  }

  function Serve(s: Store, r: Request): Store {
    if Refuses(s, r) then s
    else
      match r
      case Publish(m) =>
        Store(if m.id in s.manifests then s.order else s.order + [m.id],
              s.manifests[m.id := m],
              if m.id in s.installCounts then s.installCounts else s.installCounts[m.id := 0])
      case Unpublish(id, _) => Store(Without(s.order, id), s.manifests - {id}, s.installCounts - {id})
      case AddInstallCount(id) => s.(installCounts := s.installCounts[id := CountOf(s, id) + 1])
  }

  function After(requests: seq<Request>): Store {
    if requests == [] then EMPTY_STORE
    else Serve(After(requests[..|requests| - 1]), requests[|requests| - 1])
  }

  ghost predicate Valid(s: Store) {
    && Distinct(s.order)
    && (forall id :: id in s.order <==> id in s.manifests)
    && (forall id :: id in s.manifests ==> s.manifests[id].id == id)
    && s.installCounts.Keys == s.manifests.Keys
  }

  lemma ServeKeepsValid(s: Store, r: Request)
    requires Valid(s)
    ensures Valid(Serve(s, r))
  {
    if r.Unpublish? {
      WithoutMembers(s.order, r.appId);
    }
  }

  /**
   * What a request does: publishing sets the manifest and keeps a count; only the author unpublishes, which
   * forgets the manifest and its count; an install of a published app is counted. All else stays.
   */
  lemma ServeMeans(s: Store, r: Request)
    requires Valid(s)
    ensures match r
            case Publish(m) =>
              && Serve(s, r).manifests == s.manifests[m.id := m]
              && Serve(s, r).installCounts
                 == (if m.id in s.manifests then s.installCounts else s.installCounts[m.id := 0])
              && Serve(s, r).order == (if m.id in s.manifests then s.order else s.order + [m.id])
            case Unpublish(id, requester) =>
              && (!(id in s.manifests && s.manifests[id].author == requester) ==> Serve(s, r) == s)
              && (id in s.manifests && s.manifests[id].author == requester ==>
                    && Serve(s, r).manifests == s.manifests - {id}
                    && Serve(s, r).installCounts == s.installCounts - {id}
                    && exists i :: 0 <= i < |s.order| && s.order[i] == id
                                   && Serve(s, r).order == s.order[..i] + s.order[i + 1..])
            case AddInstallCount(id) =>
              && Serve(s, r).manifests == s.manifests && Serve(s, r).order == s.order
              && Serve(s, r).installCounts
                 == (if id in s.manifests then s.installCounts[id := s.installCounts[id] + 1] else s.installCounts)
  {
    if r.Unpublish? && r.appId in s.manifests && s.manifests[r.appId].author == r.requesterPodId {
      WithoutMeans(s.order, r.appId);
      var i :| 0 <= i < |s.order| && s.order[i] == r.appId;
      assert Serve(s, r).order == s.order[..i] + s.order[i + 1..];
    }
  }

  /** The successful addInstallCount calls for an app since it was last absent from the store. */
  function InstallsSinceAbsent(requests: seq<Request>, id: Text): nat {
    if requests == [] || id !in After(requests).manifests then 0
    else
      InstallsSinceAbsent(requests[..|requests| - 1], id)
      + (if requests[|requests| - 1] == AddInstallCount(id) then 1 else 0)
  }

  /** Manifests and counts always have the same keys, and each count is exact; republishing keeps it. */
  lemma {:induction false} CountsExact(requests: seq<Request>, id: Text)
    ensures Valid(After(requests))
    ensures id in After(requests).manifests ==>
              CountOf(After(requests), id) == InstallsSinceAbsent(requests, id)
  {
    if requests != [] {
      var init := requests[..|requests| - 1];
      CountsExact(init, id);
      ServeKeepsValid(After(init), requests[|requests| - 1]);
    }
  }

  // ----- Ranking -----

  ghost predicate Descending(s: Store, ids: seq<Text>) {
    forall i, j :: 0 <= i < j < |ids| ==> CountOf(s, ids[i]) >= CountOf(s, ids[j])
  }

  /** Puts id behind every key with at least its count. */
  function InsertByCount(s: Store, ids: seq<Text>, id: Text): seq<Text> {
    if ids == [] || CountOf(s, ids[|ids| - 1]) >= CountOf(s, id) then ids + [id]
    else InsertByCount(s, ids[..|ids| - 1], id) + [ids[|ids| - 1]]
  }

  /** The stable sort by descending count. */
  function SortByCount(s: Store, ids: seq<Text>): seq<Text> {
    if ids == [] then [] else InsertByCount(s, SortByCount(s, ids[..|ids| - 1]), ids[|ids| - 1])
  }

  lemma {:induction false} InsertMultiset(s: Store, ids: seq<Text>, id: Text)
    ensures multiset(InsertByCount(s, ids, id)) == multiset(ids) + multiset{id}
  {
    if ids != [] && CountOf(s, ids[|ids| - 1]) < CountOf(s, id) {
      InsertMultiset(s, ids[..|ids| - 1], id);
      assert ids == ids[..|ids| - 1] + [ids[|ids| - 1]];
    }
  }

  /** a stands before b in the list. */
  ghost predicate Before(order: seq<Text>, a: Text, b: Text) {
    exists p, q :: 0 <= p < q < |order| && order[p] == a && order[q] == b
  }

  /** Of two ids with equal counts, the earlier one in the store comes first. */
  ghost predicate Stable(s: Store, ids: seq<Text>, order: seq<Text>) {
    forall i, j :: 0 <= i < j < |ids| && CountOf(s, ids[i]) == CountOf(s, ids[j]) ==> Before(order, ids[i], ids[j])
  }

  lemma InsertMembers(s: Store, ids: seq<Text>, id: Text, x: Text)
    ensures x in InsertByCount(s, ids, id) <==> x in ids || x == id
  {
    InsertMultiset(s, ids, id);
    assert x in InsertByCount(s, ids, id) <==> x in multiset(InsertByCount(s, ids, id));
    assert x in ids <==> x in multiset(ids);
  }

  lemma {:induction false} InsertStable(s: Store, ids: seq<Text>, id: Text, order: seq<Text>)
    requires Stable(s, ids, order) && forall x :: x in ids ==> Before(order, x, id)
    ensures Stable(s, InsertByCount(s, ids, id), order)
  {
    if ids != [] && CountOf(s, ids[|ids| - 1]) < CountOf(s, id) {
      var init, last := ids[..|ids| - 1], ids[|ids| - 1];
      InsertStable(s, init, id, order);
      var more := InsertByCount(s, init, id);
      forall i | 0 <= i < |more| && CountOf(s, more[i]) == CountOf(s, last) ensures Before(order, more[i], last) {
        InsertMembers(s, init, id, more[i]);
        var k :| 0 <= k < |init| && init[k] == more[i];
        assert ids[k] == more[i];
      }
    }
  }

  lemma {:induction false} SortStable(s: Store, ids: seq<Text>)
    ensures Stable(s, SortByCount(s, ids), ids)
  {
    if ids != [] {
      var n := |ids| - 1;
      var sorted := SortByCount(s, ids[..n]);
      SortStable(s, ids[..n]);
      SortDescending(s, ids[..n]);
      BeforeGrows(s, sorted, ids);
      forall x | x in sorted ensures Before(ids, x, ids[n]) {
        assert x in multiset(sorted) && x in multiset(ids[..n]);
        var p :| 0 <= p < n && ids[..n][p] == x;
        assert ids[p] == x;
      }
      InsertStable(s, sorted, ids[n], ids);
    }
  }

  lemma BeforeGrows(s: Store, sorted: seq<Text>, ids: seq<Text>)
    requires ids != [] && Stable(s, sorted, ids[..|ids| - 1])
    ensures Stable(s, sorted, ids)
  {
    var init := ids[..|ids| - 1];
    forall i, j | 0 <= i < j < |sorted| && CountOf(s, sorted[i]) == CountOf(s, sorted[j])
      ensures Before(ids, sorted[i], sorted[j])
    {
      var p, q :| 0 <= p < q < |init| && init[p] == sorted[i] && init[q] == sorted[j];
      assert ids[p] == sorted[i] && ids[q] == sorted[j];
    }
  }

  ghost predicate AtLeast(s: Store, ids: seq<Text>, bound: nat) {
    forall i :: 0 <= i < |ids| ==> CountOf(s, ids[i]) >= bound
  }

  /** Inserting keeps a lower bound on the counts. */
  lemma {:induction false} InsertBounded(s: Store, ids: seq<Text>, id: Text, bound: nat)
    requires CountOf(s, id) >= bound && AtLeast(s, ids, bound)
    ensures AtLeast(s, InsertByCount(s, ids, id), bound)
  {
    if ids != [] && CountOf(s, ids[|ids| - 1]) < CountOf(s, id) {
      InsertBounded(s, ids[..|ids| - 1], id, bound);
    }
  }

  lemma {:induction false} InsertDescending(s: Store, ids: seq<Text>, id: Text)
    requires Descending(s, ids)
    ensures Descending(s, InsertByCount(s, ids, id))
  {
    if ids != [] && CountOf(s, ids[|ids| - 1]) < CountOf(s, id) {
      var init, last := ids[..|ids| - 1], ids[|ids| - 1];
      InsertDescending(s, init, id);
      InsertBounded(s, init, id, CountOf(s, last));
      assert InsertByCount(s, ids, id) == InsertByCount(s, init, id) + [last];
    }
  }

  lemma {:induction false} SortDescending(s: Store, ids: seq<Text>)
    ensures Descending(s, SortByCount(s, ids)) && multiset(SortByCount(s, ids)) == multiset(ids)
  {
    if ids != [] {
      SortDescending(s, ids[..|ids| - 1]);
      InsertDescending(s, SortByCount(s, ids[..|ids| - 1]), ids[|ids| - 1]);
      InsertMultiset(s, SortByCount(s, ids[..|ids| - 1]), ids[|ids| - 1]);
      assert ids == ids[..|ids| - 1] + [ids[|ids| - 1]];
    }
  }

  /** Where slice(0, limit) ends; a negative limit counts from the end. */
  function SliceEnd(size: nat, limit: int): (n: nat)
    ensures n <= size
  {
    if limit >= 0 then (if limit < size then limit else size)
    else if size + limit > 0 then size + limit
    else 0
  }

  /** The ranked ids are distinct, in descending order of count, and no omitted app beats a returned one. */
  ghost predicate IsRanking(s: Store, ids: seq<Text>) {
    && Distinct(ids) && Descending(s, ids)
    && (forall id :: id in ids ==> id in s.manifests)
    && (forall id, k :: id in s.manifests && id !in ids && 0 <= k < |ids| ==> CountOf(s, ids[k]) >= CountOf(s, id))
  }

  lemma DistinctByMultiset(a: seq<Text>, b: seq<Text>)
    requires Distinct(a) && multiset(a) == multiset(b)
    ensures Distinct(b) && forall x :: x in a <==> x in b
  {
    forall x ensures x in a <==> x in b {
      assert x in a <==> x in multiset(a);
      assert x in b <==> x in multiset(b);
    }
    forall i, j | 0 <= i < j < |b| ensures b[i] != b[j] {
      if b[i] == b[j] {
        assert b == b[..i] + [b[i]] + b[i + 1..j] + [b[j]] + b[j + 1..];
        assert multiset(b)[b[i]] >= 2;
        DistinctCount(a, b[i]);
        assert false;
      }
    }
  }

  lemma {:induction false} DistinctCount(a: seq<Text>, x: Text)
    requires Distinct(a)
    ensures multiset(a)[x] <= 1
  {
    if a != [] {
      var init, last := a[..|a| - 1], a[|a| - 1];
      DistinctCount(init, x);
      assert a == init + [last] && last !in init;
    }
  }

  lemma PopularIsRanking(s: Store, limit: int)
    requires Valid(s)
    ensures var sorted := SortByCount(s, s.order);
            && |sorted| == |s.order| && IsRanking(s, sorted[..SliceEnd(|sorted|, limit)])
            && Stable(s, sorted[..SliceEnd(|sorted|, limit)], s.order)
  {
    SortStable(s, s.order);
    var sorted := SortByCount(s, s.order);
    SortDescending(s, s.order);
    DistinctByMultiset(s.order, sorted);
    assert |sorted| == |multiset(sorted)| == |s.order|;
    PrefixIsRanking(s, sorted, SliceEnd(|sorted|, limit));
  }

  lemma BelowPrefix(s: Store, sorted: seq<Text>, k: nat, n: nat, id: Text)
    requires k < n <= |sorted| && Descending(s, sorted) && id in sorted && id !in sorted[..n]
    ensures CountOf(s, sorted[k]) >= CountOf(s, id)
  {
    assert forall i :: 0 <= i < n ==> sorted[i] in sorted[..n];
    var j :| 0 <= j < |sorted| && sorted[j] == id;
  }

  lemma PrefixIsRanking(s: Store, sorted: seq<Text>, n: nat)
    requires n <= |sorted| && Distinct(sorted) && Descending(s, sorted)
    requires forall id :: id in s.manifests <==> id in sorted
    ensures IsRanking(s, sorted[..n])
  {
    forall id, k | id in s.manifests && id !in sorted[..n] && 0 <= k < n
      ensures CountOf(s, sorted[..n][k]) >= CountOf(s, id)
    {
      BelowPrefix(s, sorted, k, n, id);
    }
  }

  // ----- The object -----

  class AppStore {
    var order: seq<Text>
    var manifests: map<Text, AppManifest>
    var installCounts: map<Text, nat>

    ghost function Snapshot(): Store
      reads this
    {
      Store(order, manifests, installCounts)
    }

    constructor ()
      ensures Snapshot() == EMPTY_STORE
    {
      order, manifests, installCounts := [], map[], map[];
    }

    method PublishApp(manifest: AppManifest)
      requires Valid(Snapshot())
      modifies this
      ensures Valid(Snapshot()) && Snapshot() == Serve(old(Snapshot()), Publish(manifest))
    {
      ServeKeepsValid(Snapshot(), Publish(manifest));
      if manifest.id !in manifests {
        order := order + [manifest.id];
      }
      manifests := manifests[manifest.id := manifest];
      if manifest.id !in installCounts {
        installCounts := installCounts[manifest.id := 0];
      }
    }

    method UnpublishApp(appId: Text, requesterPodId: Text) returns (ok: bool)
      requires Valid(Snapshot())
      modifies this
      ensures Valid(Snapshot()) && Snapshot() == Serve(old(Snapshot()), Unpublish(appId, requesterPodId))
      ensures ok <==> !Refuses(old(Snapshot()), Unpublish(appId, requesterPodId))
    {
      ServeKeepsValid(Snapshot(), Unpublish(appId, requesterPodId));
      if appId !in manifests {
        return false;
      }
      if manifests[appId].author != requesterPodId {
        return false;
      }
      order := Without(order, appId);
      manifests := manifests - {appId};
      installCounts := installCounts - {appId};
      return true;
    }

    method CountInstall(appId: Text) returns (ok: bool)
      requires Valid(Snapshot())
      modifies this
      ensures Valid(Snapshot()) && Snapshot() == Serve(old(Snapshot()), AddInstallCount(appId))
      ensures ok <==> appId in manifests
    {
      ServeKeepsValid(Snapshot(), AddInstallCount(appId));
      if appId !in manifests {
        return false;
      }
      installCounts := installCounts[appId := (if appId in installCounts then installCounts[appId] else 0) + 1];
      return true;
    }

    method GetPopular(limit: int) returns (popular: seq<AppManifest>)
      requires Valid(Snapshot())
      ensures limit >= 0 ==> |popular| == if limit < |manifests| then limit else |manifests|
      ensures limit < 0 ==> |popular| == if -limit < |manifests| then |manifests| + limit else 0
      ensures forall k :: 0 <= k < |popular| ==>
                popular[k].id in manifests && popular[k] == manifests[popular[k].id]
      ensures IsRanking(Snapshot(), seq(|popular|, k requires 0 <= k < |popular| => popular[k].id))
      ensures Stable(Snapshot(), seq(|popular|, k requires 0 <= k < |popular| => popular[k].id), order)
    {
      var sorted := SortByCount(Store(order, manifests, installCounts), order);
      PopularIsRanking(Snapshot(), limit);
      KeyCount(Snapshot());
      var ids := sorted[..SliceEnd(|sorted|, limit)];
      popular := [];
      for k := 0 to |ids|
        invariant |popular| == k
        invariant forall i :: 0 <= i < k ==>
                    ids[i] in manifests && popular[i] == manifests[ids[i]] && popular[i].id == ids[i]
      {
        assert ids[k] in ids;
        popular := popular + [manifests[ids[k]]];
      }
      assert seq(|popular|, k requires 0 <= k < |popular| => popular[k].id) == ids;
    }
  }

  lemma {:induction false} KeyCountOf(keys: seq<Text>, ids: set<Text>)
    requires Distinct(keys) && forall id :: id in keys <==> id in ids
    ensures |keys| == |ids|
  {
    if keys != [] {
      var init, last := keys[..|keys| - 1], keys[|keys| - 1];
      assert keys == init + [last] && last !in init;
      KeyCountOf(init, ids - {last});
    } else {
      assert ids == {};
    }
  }

  lemma KeyCount(s: Store)
    requires Valid(s)
    ensures |s.order| == |s.manifests|
  {
    KeyCountOf(s.order, s.manifests.Keys);
    assert |s.manifests| == |s.manifests.Keys|;
  }
}
