/** The Grafana views: what each holds after a refresh, and how the derived one agrees with the tables. */
module Views {
  import opened Basics
  import opened History
  import opened Ranking
  import opened Presence

  datatype View = CurrentPeers | CurrentAddrmap | PollHealth | CertInventory | Disagreement

  // The order in which they are refreshed.
  const ORDER: seq<View> := [CurrentPeers, CurrentAddrmap, PollHealth, CertInventory, Disagreement]

  datatype Health = Health(polls: nat, successful: nat, failed: nat, latest: int)

  datatype Dispute = Dispute(
    lighthouses: nat, learnedSets: nat, byLighthouse: set<(string, seq<string>)>, latest: int)

  datatype Snapshot = Snapshot(
    peers: set<Child>,
    addrmap: set<Child>,
    health: map<(int, string), Health>,
    certs: set<Child>,
    disputes: map<string, Dispute>)

  /*** The ranked views: one newest row per key ***/

  predicate Newer(a: Child, b: Child) {
    a.observedAt > b.observedAt
  }

  predicate NewerThenIndex(a: Child, b: Child) {
    a.observedAt > b.observedAt || (a.observedAt == b.observedAt && EntryIndex(a) < EntryIndex(b))
  }

  function HostRows(t: Tables): set<Child> {
    set k <- t.kids | k.data.Host? && k.data.source == Hostmap
  }

  // JOIN poll_runs ON poll_runs.id = poll_run_id
  function PeerRows(t: Tables): set<Child> {
    set k <- HostRows(t) | k.runId in t.runs
  }

  function AddrTableRows(t: Tables): set<Child> {
    set k <- t.kids | k.data.Addr?
  }

  function LighthousePeer(k: Child): (string, string) {
    (k.lighthouse, PeerKey(k))
  }

  // (lighthouse_name, vpn_addr, COALESCE(reporter_vpn_addr, ''))
  function AddrKey(k: Child): (string, string, string) {
    if k.data.Addr? then
      (k.lighthouse, k.data.vpnAddr, if k.data.reporter.Some? then k.data.reporter.value else "")
    else (k.lighthouse, "", "")
  }

  // COALESCE(cert_fingerprint, primary_vpn_addr), which may be NULL
  function CertKey(k: Child): Option<string> {
    if !k.data.Host? then None
    else if k.data.fingerprint.Some? then k.data.fingerprint
    else k.data.primary
  }

  /*** Grouped views ***/

  // max(), of a group that is never empty
  function Newest(times: set<int>): (m: int)
    ensures times != {} ==> m in times && forall x <- times :: x <= m
  {
    if times == {} then 0
    else
      NewestExists(times);
      var m :| m in times && forall x <- times :: x <= m;
      m
  }

  lemma {:induction false} NewestExists(times: set<int>)
    requires times != {}
    ensures exists m :: m in times && forall x <- times :: x <= m
    decreases |times|
  {
    var x := AnyOf(times);
    if times == {x} {
    } else {
      assert times == (times - {x}) + {x};
      NewestExists(times - {x});
      var y :| y in times - {x} && forall z <- times - {x} :: z <= y;
      var m := if x <= y then y else x;
      assert m in times && forall z <- times :: z <= m;
    }
  }

  const BUCKET: int := 300_000_000

  function BucketKey(r: Run): (int, string) {
    (r.startedAt / BUCKET, r.lighthouse)
  }

  function InBucket(t: Tables, key: (int, string)): set<int> {
    set id <- t.runs | BucketKey(t.runs[id]) == key
  }

  function WithSuccess(t: Tables, ids: set<int>, success: bool): set<int> {
    set id <- ids | id in t.runs && t.runs[id].success == success
  }

  function HealthOf(t: Tables): map<(int, string), Health> {
    map key | key in (set id <- t.runs :: BucketKey(t.runs[id])) ::
      var at := InBucket(t, key);
      Health(|at|, |WithSuccess(t, at, true)|, |WithSuccess(t, at, false)|,
             Newest(set id <- at | id in t.runs :: t.runs[id].startedAt))
  }

  lemma SplitBySuccess(t: Tables, ids: set<int>)
    requires ids <= t.runs.Keys
    ensures |ids| == |WithSuccess(t, ids, true)| + |WithSuccess(t, ids, false)|
  {
    assert ids == WithSuccess(t, ids, true) + WithSuccess(t, ids, false);
  }

  // The latest poll of a bucket is one of its own and none is later.
  lemma HealthLatest(t: Tables, key: (int, string))
    requires key in HealthOf(t)
    ensures exists id <- InBucket(t, key) :: t.runs[id].startedAt == HealthOf(t)[key].latest
    ensures forall id <- InBucket(t, key) :: t.runs[id].startedAt <= HealthOf(t)[key].latest
  {
    var at := InBucket(t, key);
    var times := set id <- at | id in t.runs :: t.runs[id].startedAt;
    var id :| id in t.runs && BucketKey(t.runs[id]) == key;
    assert id in at && t.runs[id].startedAt in times;
    assert HealthOf(t)[key].latest == Newest(times);
    forall other <- at
      ensures t.runs[other].startedAt <= HealthOf(t)[key].latest
    {
      assert t.runs[other].startedAt in times;
    }
  }

  // The polls of one lighthouse that started within one span of five minutes and went so.
  function PollsIn(t: Tables, span: int, lighthouse: string, success: bool): set<int> {
    set id <- t.runs | t.runs[id].startedAt / 300_000_000 == span && t.runs[id].lighthouse == lighthouse &&
                       t.runs[id].success == success
  }

  // A bucket counts those that succeeded and those that failed.
  lemma HealthCounts(t: Tables, key: (int, string))
    requires key in HealthOf(t)
    ensures HealthOf(t)[key].successful == |PollsIn(t, key.0, key.1, true)|
    ensures HealthOf(t)[key].failed == |PollsIn(t, key.0, key.1, false)|
  {
    SameBucket(t, key, true);
    SameBucket(t, key, false);
  }

  lemma SameBucket(t: Tables, key: (int, string), success: bool)
    ensures WithSuccess(t, InBucket(t, key), success) == PollsIn(t, key.0, key.1, success)
  {
    forall id
      ensures id in WithSuccess(t, InBucket(t, key), success) <==> id in PollsIn(t, key.0, key.1, success)
    {
      assert id in t.runs ==> (BucketKey(t.runs[id]) == key <==>
        t.runs[id].startedAt / 300_000_000 == key.0 && t.runs[id].lighthouse == key.1);
    }
  }

  lemma HealthAddsUp(t: Tables, key: (int, string))
    requires key in HealthOf(t)
    ensures var h := HealthOf(t)[key]; h.polls == h.successful + h.failed && h.polls > 0
  {
    SplitBySuccess(t, InBucket(t, key));
    var id :| id in t.runs && BucketKey(t.runs[id]) == key;
    assert id in InBucket(t, key);
  }

  ghost function Polls(h: map<(int, string), Health>): nat
    decreases |h|
  {
    if h.Keys == {} then 0 else
      var key :| key in h;
      assert |h.Keys - {key}| < |h|;
      h[key].polls + Polls(h - {key})
  }

  function InBuckets(t: Tables, keys: set<(int, string)>): set<int> {
    set id <- t.runs | BucketKey(t.runs[id]) in keys
  }

  // Every run is counted in exactly one bucket.
  lemma HealthCountsEveryRun(t: Tables)
    ensures Polls(HealthOf(t)) == |t.runs|
  {
    var h := HealthOf(t);
    PollsOfBuckets(t, h);
    forall id <- t.runs
      ensures id in InBuckets(t, h.Keys)
    {
      assert BucketKey(t.runs[id]) in h;
    }
    assert InBuckets(t, h.Keys) == t.runs.Keys;
  }

  lemma {:induction false} PollsOfBuckets(t: Tables, h: map<(int, string), Health>)
    requires forall key <- h :: h[key].polls == |InBucket(t, key)|
    ensures Polls(h) == |InBuckets(t, h.Keys)|
    decreases |h|
  {
    if h.Keys == {} {
      assert InBuckets(t, h.Keys) == {};
    } else {
      var key :| key in h && Polls(h) == h[key].polls + Polls(h - {key});
      PollsOfBuckets(t, h - {key});
      assert (h - {key}).Keys == h.Keys - {key};
      OneBucketMore(t, h.Keys, key);
    }
  }

  lemma OneBucketMore(t: Tables, keys: set<(int, string)>, key: (int, string))
    requires key in keys
    ensures |InBuckets(t, keys)| == |InBucket(t, key)| + |InBuckets(t, keys - {key})|
  {
    assert InBuckets(t, keys) == InBucket(t, key) + InBuckets(t, keys - {key});
    assert InBucket(t, key) !! InBuckets(t, keys - {key});
  }

  function AtAddr(rows: set<Child>, vpnAddr: string): set<Child> {
    set k <- rows | k.data.Addr? && k.data.vpnAddr == vpnAddr
  }

  function LighthousesOf(rows: set<Child>): set<string> {
    set k <- rows :: k.lighthouse
  }

  function LearnedOf(rows: set<Child>): set<seq<string>> {
    set k <- rows | k.data.Addr? :: k.data.learned
  }

  predicate Disputed(rows: set<Child>, vpnAddr: string) {
    |LighthousesOf(AtAddr(rows, vpnAddr))| > 1 && |LearnedOf(AtAddr(rows, vpnAddr))| > 1
  }

  function DisputesOf(rows: set<Child>): map<string, Dispute> {
    map vpnAddr | vpnAddr in (set k <- rows | k.data.Addr? :: k.data.vpnAddr) && Disputed(rows, vpnAddr) ::
      var at := AtAddr(rows, vpnAddr);
      Dispute(|LighthousesOf(at)|, |LearnedOf(at)|, set k <- at | k.data.Addr? :: (k.lighthouse, k.data.learned),
              Newest(set k <- at :: k.observedAt))
  }

  lemma TwoMembers<T>(s: set<T>)
    ensures |s| > 1 <==> exists x, y :: x in s && y in s && x != y
  {
    if |s| > 1 {
      var x := AnyOf(s);
      assert |s - {x}| == |s| - 1;
      var y := AnyOf(s - {x});
    }
    if x, y :| x in s && y in s && x != y {
      assert {x, y} <= s;
      SubsetOfEqualSize({x, y}, s);
    }
  }

  // "More than one lighthouse and more than one learned set" says exactly that two different
  // lighthouses hold different learned sets for the address.
  lemma DisputedIff(rows: set<Child>, vpnAddr: string)
    ensures Disputed(rows, vpnAddr) <==>
            exists a, b :: a in AtAddr(rows, vpnAddr) && b in AtAddr(rows, vpnAddr) &&
              a.lighthouse != b.lighthouse && a.data.learned != b.data.learned
  {
    var at := AtAddr(rows, vpnAddr);
    TwoMembers(LighthousesOf(at));
    TwoMembers(LearnedOf(at));
    if Disputed(rows, vpnAddr) {
      var x, y :| x in LearnedOf(at) && y in LearnedOf(at) && x != y;
      var a :| a in at && a.data.learned == x;
      var b :| b in at && b.data.learned == y;
      var p, q :| p in LighthousesOf(at) && q in LighthousesOf(at) && p != q;
      var other := if a.lighthouse == p then q else p;
      var c :| c in at && c.lighthouse == other;
      assert a.lighthouse != b.lighthouse || (a.lighthouse != c.lighthouse && b.lighthouse != c.lighthouse);
    }
    if a, b :| a in at && b in at && a.lighthouse != b.lighthouse && a.data.learned != b.data.learned {
      assert a.lighthouse in LighthousesOf(at) && b.lighthouse in LighthousesOf(at);
      assert a.data.learned in LearnedOf(at) && b.data.learned in LearnedOf(at);
    }
  }

  /*** When a view is valid for the tables ***/

  ghost predicate Fresh(v: View, t: Tables, s: Snapshot) {
    match v
    case CurrentPeers => IsRankOne(s.peers, PeerRows(t), LighthousePeer, NewerThenIndex)
    case CurrentAddrmap => IsRankOne(s.addrmap, AddrTableRows(t), AddrKey, Newer)
    case PollHealth => s.health == HealthOf(t)
    case CertInventory => IsRankOne(s.certs, HostRows(t), CertKey, Newer)
    case Disagreement => s.disputes == DisputesOf(s.addrmap) && IsRankOne(s.addrmap, AddrTableRows(t), AddrKey, Newer)
  }

  // The rows of one view are the same in both.
  ghost predicate Same(v: View, s: Snapshot, s': Snapshot) {
    match v
    case CurrentPeers => s'.peers == s.peers
    case CurrentAddrmap => s'.addrmap == s.addrmap
    case PollHealth => s'.health == s.health
    case CertInventory => s'.certs == s.certs
    case Disagreement => s'.disputes == s.disputes
  }

  // A view's refresh only rewrites that view.
  ghost predicate OnlyChanged(v: View, s: Snapshot, s': Snapshot) {
    && (v != CurrentPeers ==> Same(CurrentPeers, s, s'))
    && (v != CurrentAddrmap ==> Same(CurrentAddrmap, s, s'))
    && (v != PollHealth ==> Same(PollHealth, s, s'))
    && (v != CertInventory ==> Same(CertInventory, s, s'))
    && (v != Disagreement ==> Same(Disagreement, s, s'))
  }

  // REFRESH MATERIALIZED VIEW; ranks break ties as they like.
  ghost predicate Refreshes(v: View, t: Tables, s: Snapshot, s': Snapshot) {
    && OnlyChanged(v, s, s')
    && if v == Disagreement then s'.disputes == DisputesOf(s.addrmap) else Fresh(v, t, s')
  }

  // The unique indexes on the five views.
  ghost predicate UniqueIndexes(s: Snapshot) {
    && (forall a <- s.peers, b <- s.peers :: LighthousePeer(a) == LighthousePeer(b) ==> a == b)
    && (forall a <- s.addrmap, b <- s.addrmap :: AddrKey(a) == AddrKey(b) ==> a == b)
    && (forall a <- s.certs, b <- s.certs :: CertKey(a) == CertKey(b) ==> a == b)
  }

  lemma RefreshKeepsUniqueIndexes(v: View, t: Tables, s: Snapshot, s': Snapshot)
    requires UniqueIndexes(s) && Refreshes(v, t, s, s')
    ensures UniqueIndexes(s')
  {
  }

  // Later refreshes leave the views before them in the order valid.
  lemma RefreshKeepsEarlier(i: nat, j: nat, t: Tables, s: Snapshot, s': Snapshot)
    requires i < j < |ORDER| && Fresh(ORDER[i], t, s) && Refreshes(ORDER[j], t, s, s')
    ensures Fresh(ORDER[i], t, s')
  {
    LaterRefreshIsElsewhere(ORDER[i], ORDER[j], t, s, s');
  }

  lemma LaterRefreshIsElsewhere(v: View, w: View, t: Tables, s: Snapshot, s': Snapshot)
    requires v != w && v != Disagreement && Fresh(v, t, s) && Refreshes(w, t, s, s')
    ensures Fresh(v, t, s')
  {
    assert Same(v, s, s');
    match v
    case CurrentPeers =>
    case CurrentAddrmap =>
    case PollHealth =>
    case CertInventory =>
  }

  lemma RefreshMakesFresh(j: nat, t: Tables, s: Snapshot, s': Snapshot)
    requires j < |ORDER| && Refreshes(ORDER[j], t, s, s')
    requires forall i: nat | i < j :: Fresh(ORDER[i], t, s)
    ensures forall i: nat | i <= j :: Fresh(ORDER[i], t, s')
  {
    assert ORDER[1] == CurrentAddrmap;
    forall i: nat | i < j
      ensures Fresh(ORDER[i], t, s')
    {
      RefreshKeepsEarlier(i, j, t, s, s');
    }
  }

  /*** The current views and retention ***/

  ghost predicate Rows(t: Tables, rows: set<Child>) {
    rows <= t.kids && forall k <- rows :: !k.data.Raw?
  }

  ghost predicate NewestFirst(before: (Child, Child) -> bool) {
    forall a: Child, b: Child :: a.observedAt > b.observedAt ==> before(a, b)
  }

  function Left(c: Cuts, t: Tables, rows: set<Child>): set<Child> {
    set k <- rows | k in After(c, t).kids
  }

  function ViewsLeft(c: Cuts, t: Tables, s: Snapshot): Snapshot {
    s.(peers := Left(c, t, s.peers), addrmap := Left(c, t, s.addrmap), certs := Left(c, t, s.certs))
  }

  // Rows are dated by their poll: if the newest of a key has expired, all of them have, so none of
  // them takes its place.
  lemma RankOneAfterPrune<K(!new)>(c: Cuts, t: Tables, rows: set<Child>, key: Child -> K,
                                   before: (Child, Child) -> bool, picked: set<Child>)
    requires Linked(t) && Stamped(t) && Rows(t, rows) && NewestFirst(before)
    requires IsRankOne(picked, rows, key, before)
    ensures IsRankOne(Left(c, t, picked), Left(c, t, rows), key, before)
  {
    forall r <- Left(c, t, rows)
      ensures HasKey(Left(c, t, picked), key, key(r))
    {
      assert HasKey(picked, key, key(r));
      var p :| p in picked && key(p) == key(r);
      assert !before(r, p);
      assert p.observedAt >= r.observedAt;
      assert KidLive(c, t, p);
    }
  }

  // What the ranked views showed before a prune, less the rows it deleted, is what a refresh after it
  // finds: no older row comes back.
  lemma CurrentViewsAfterPrune(c: Cuts, t: Tables, s: Snapshot)
    requires Linked(t) && Stamped(t)
    ensures forall v <- {CurrentPeers, CurrentAddrmap, CertInventory} ::
              Fresh(v, t, s) ==> Fresh(v, After(c, t), ViewsLeft(c, t, s))
  {
    var after := After(c, t);
    assert PeerRows(after) == Left(c, t, PeerRows(t));
    assert AddrTableRows(after) == Left(c, t, AddrTableRows(t));
    assert HostRows(after) == Left(c, t, HostRows(t));
    if Fresh(CurrentPeers, t, s) {
      RankOneAfterPrune(c, t, PeerRows(t), LighthousePeer, NewerThenIndex, s.peers);
    }
    if Fresh(CurrentAddrmap, t, s) {
      RankOneAfterPrune(c, t, AddrTableRows(t), AddrKey, Newer, s.addrmap);
    }
    if Fresh(CertInventory, t, s) {
      RankOneAfterPrune(c, t, HostRows(t), CertKey, Newer, s.certs);
    }
  }

  predicate Reports(k: Child, vpnAddr: string) {
    k.data.Addr? && k.data.vpnAddr == vpnAddr
  }

  lemma AtAddrIs(rows: set<Child>, vpnAddr: string)
    ensures forall k :: k in AtAddr(rows, vpnAddr) <==> k in rows && Reports(k, vpnAddr)
  {
  }

  // After a whole refresh an address is reported as disputed exactly when two lighthouses' current
  // rows for it hold different learned sets.
  lemma DisputeReportedIff(t: Tables, s: Snapshot, vpnAddr: string)
    requires Fresh(Disagreement, t, s)
    ensures vpnAddr in s.disputes <==>
            exists a <- s.addrmap, b <- s.addrmap :: Reports(a, vpnAddr) && Reports(b, vpnAddr) &&
              a.lighthouse != b.lighthouse && a.data.learned != b.data.learned
  {
    var at := AtAddr(s.addrmap, vpnAddr);
    DisputedIff(s.addrmap, vpnAddr);
    AtAddrIs(s.addrmap, vpnAddr);
    if a, b :| a in at && b in at && a.lighthouse != b.lighthouse && a.data.learned != b.data.learned {
      assert a in s.addrmap && a.data.vpnAddr == vpnAddr;
    }
  }

  // With it go the lighthouses and learned sets that report it, and the time of the newest row.
  lemma DisputeSays(t: Tables, s: Snapshot, vpnAddr: string)
    requires Fresh(Disagreement, t, s) && vpnAddr in s.disputes
    ensures var d := s.disputes[vpnAddr];
      var rows := set k <- s.addrmap | Reports(k, vpnAddr);
      && d.lighthouses == |set k <- rows :: k.lighthouse|
      && d.learnedSets == |set k <- rows | k.data.Addr? :: k.data.learned|
      && d.byLighthouse == (set k <- rows | k.data.Addr? :: (k.lighthouse, k.data.learned))
      && (exists k <- rows :: k.observedAt == d.latest) && (forall k <- rows :: k.observedAt <= d.latest)
  {
    var rows := set k <- s.addrmap | Reports(k, vpnAddr);
    AtAddrIs(s.addrmap, vpnAddr);
    assert rows == AtAddr(s.addrmap, vpnAddr);
    var times := set k <- rows :: k.observedAt;
    DisputedIff(s.addrmap, vpnAddr);
    var some :| some in rows;
    assert some.observedAt in times;
    assert s.disputes[vpnAddr].latest == Newest(times);
    forall k <- rows
      ensures k.observedAt <= s.disputes[vpnAddr].latest
    {
      assert k.observedAt in times;
    }
  }

  /*** What the ranked views show, row by row ***/

  predicate InHostmap(t: Tables, k: Child) {
    k in t.kids && k.data.Host? && k.data.source == Hostmap
  }

  // Per lighthouse and peer, the newest hostmap entry of any poll, the first of several in its poll.
  lemma CurrentPeersShow(t: Tables, s: Snapshot, k: Child)
    requires Fresh(CurrentPeers, t, s)
    ensures forall p <- s.peers :: InHostmap(t, p) && p.runId in t.runs
    ensures InHostmap(t, k) && k.runId in t.runs ==>
      exists p <- s.peers :: p.lighthouse == k.lighthouse && PeerKey(p) == PeerKey(k) && p.data.Host? &&
        (p.observedAt > k.observedAt || (p.observedAt == k.observedAt && p.data.entryIndex <= k.data.entryIndex))
  {
    forall p <- s.peers
      ensures InHostmap(t, p) && p.runId in t.runs
    {
      assert p in PeerRows(t);
    }
    if InHostmap(t, k) && k.runId in t.runs {
      assert k in HostRows(t) && k in PeerRows(t);
      assert HasKey(s.peers, LighthousePeer, LighthousePeer(k));
      var p :| p in s.peers && LighthousePeer(p) == LighthousePeer(k);
      assert !NewerThenIndex(k, p);
      assert InHostmap(t, p);
    }
  }

  predicate SameReport(a: Child, b: Child) {
    && a.data.Addr? && b.data.Addr? && a.lighthouse == b.lighthouse && a.data.vpnAddr == b.data.vpnAddr
    && (a.data.reporter == b.data.reporter ||
        (a.data.reporter in {None, Some("")} && b.data.reporter in {None, Some("")}))
  }

  // Per lighthouse, address and reporter (none being the same as an empty one), a newest addrmap row.
  lemma CurrentAddrmapShows(t: Tables, s: Snapshot, k: Child)
    requires Fresh(CurrentAddrmap, t, s)
    ensures forall p <- s.addrmap :: p in t.kids && p.data.Addr?
    ensures forall p <- s.addrmap, q <- s.addrmap :: SameReport(p, q) ==> p == q
    ensures k in t.kids && k.data.Addr? ==>
      exists p <- s.addrmap :: SameReport(p, k) && p.observedAt >= k.observedAt
  {
    forall p <- s.addrmap
      ensures p in t.kids && p.data.Addr?
    {
      assert p in AddrTableRows(t);
    }
    if k in t.kids && k.data.Addr? {
      assert k in AddrTableRows(t);
      assert HasKey(s.addrmap, AddrKey, AddrKey(k));
      var p :| p in s.addrmap && AddrKey(p) == AddrKey(k);
      assert !Newer(k, p);
    }
  }

  // Two entries share a certificate row iff their certificates, or without one their addresses, agree.
  predicate SameCert(a: Child, b: Child) {
    a.data.Host? && b.data.Host? &&
    (if a.data.fingerprint.Some? then a.data.fingerprint else a.data.primary) ==
    (if b.data.fingerprint.Some? then b.data.fingerprint else b.data.primary)
  }

  lemma CertInventoryShows(t: Tables, s: Snapshot, k: Child)
    requires Fresh(CertInventory, t, s)
    ensures forall p <- s.certs :: InHostmap(t, p)
    ensures forall p <- s.certs, q <- s.certs :: SameCert(p, q) ==> p == q
    ensures InHostmap(t, k) ==> exists p <- s.certs :: SameCert(p, k) && p.observedAt >= k.observedAt
  {
    forall p <- s.certs
      ensures InHostmap(t, p)
    {
      assert p in HostRows(t);
    }
    if InHostmap(t, k) {
      assert k in HostRows(t);
      assert HasKey(s.certs, CertKey, CertKey(k));
      var p :| p in s.certs && CertKey(p) == CertKey(k);
      assert !Newer(k, p);
    }
  }

  /*** The stored views ***/

  function Place(v: View): (i: nat)
    ensures i < |ORDER| && ORDER[i] == v
  {
    match v
    case CurrentPeers => 0
    case CurrentAddrmap => 1
    case PollHealth => 2
    case CertInventory => 3
    case Disagreement => 4
  }

  // Every view at or after `from` in the order is as it was.
  ghost predicate UntouchedFrom(from: nat, was: Snapshot, s: Snapshot) {
    forall v: View :: Place(v) >= from ==> Same(v, was, s)
  }

  lemma RefreshTouchesOne(j: nat, t: Tables, was: Snapshot, s: Snapshot, s': Snapshot)
    requires j < |ORDER| && UntouchedFrom(j, was, s) && Refreshes(ORDER[j], t, s, s')
    ensures UntouchedFrom(j + 1, was, s')
  {
    assert Place(ORDER[j]) == j;
    forall v: View | Place(v) >= j + 1
      ensures Same(v, was, s')
    {
      assert v != ORDER[j] && Same(v, s, s') && Same(v, was, s);
    }
  }

  class GrafanaViews {
    var stored: Snapshot

    constructor (s: Snapshot)
      ensures stored == s
    {
      stored := s;
    }

    // One REFRESH MATERIALIZED VIEW: a failure may hide a refresh that took effect.
    method Refresh(v: View, t: Tables) returns (ok: bool)
      modifies this
      ensures ok ==> Refreshes(v, t, old(stored), stored)
      ensures !ok ==> stored == old(stored) || Refreshes(v, t, old(stored), stored)
    {
      var applied: bool := *;
      ok := false;
      if applied {
        match v {
          case CurrentPeers =>
            RankOneExists(PeerRows(t), LighthousePeer, NewerThenIndex);
            var picked :| picked <= PeerRows(t) && IsRankOne(picked, PeerRows(t), LighthousePeer, NewerThenIndex);
            stored := stored.(peers := picked);
          case CurrentAddrmap =>
            RankOneExists(AddrTableRows(t), AddrKey, Newer);
            var picked :| picked <= AddrTableRows(t) && IsRankOne(picked, AddrTableRows(t), AddrKey, Newer);
            stored := stored.(addrmap := picked);
          case PollHealth =>
            stored := stored.(health := HealthOf(t));
          case CertInventory =>
            RankOneExists(HostRows(t), CertKey, Newer);
            var picked :| picked <= HostRows(t) && IsRankOne(picked, HostRows(t), CertKey, Newer);
            stored := stored.(certs := picked);
          case Disagreement =>
            stored := stored.(disputes := DisputesOf(stored.addrmap));
        }
        ok := *;
      }
    }

    // Views before the one that failed are valid, views after it are as they were.
    method RefreshGrafanaViews(t: Tables) returns (failed: Option<View>)
      requires UniqueIndexes(stored)
      modifies this
      ensures UniqueIndexes(stored)
      ensures failed.None? ==> forall v: View :: Fresh(v, t, stored)
      ensures failed.Some? ==> forall v: View :: Place(v) < Place(failed.value) ==> Fresh(v, t, stored)
      ensures failed.Some? ==> UntouchedFrom(Place(failed.value) + 1, old(stored), stored)
    {
      var j: nat := 0;
      while j < |ORDER|
        invariant j <= |ORDER| && UniqueIndexes(stored)
        invariant forall i: nat | i < j :: Fresh(ORDER[i], t, stored)
        invariant UntouchedFrom(j, old(stored), stored)
      {
        ghost var before := stored;
        var ok := Refresh(ORDER[j], t);
        if Refreshes(ORDER[j], t, before, stored) {
          RefreshKeepsUniqueIndexes(ORDER[j], t, before, stored);
          RefreshMakesFresh(j, t, before, stored);
          RefreshTouchesOne(j, t, old(stored), before, stored);
        }
        if !ok {
          return Some(ORDER[j]);
        }
        j := j + 1;
      }
      forall v: View
        ensures Fresh(v, t, stored)
      {
        assert ORDER[Place(v)] == v;
      }
      failed := None;
    }
  }
}
