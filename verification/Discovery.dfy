/** From the tables to service discovery: `ListPresentHostmapPeers` feeding `prometheusTargetGroups`. */
module Discovery {
  import opened Basics
  import opened History
  import opened Retention
  import opened RetentionReaders
  import opened Ranking
  import opened Presence
  import opened Model
  import opened HostPort
  import opened TargetGroups

  // storage.go `textValue`: NULL reads as the empty string.
  function TextValue(o: Option<string>): string {
    if o.Some? then o.value else ""
  }

  function ToPeer(t: Tables, k: Child): PresentPeer
    requires k.runId in t.runs && k.data.Host?
  {
    PresentPeer(k.lighthouse, PeerKey(k), TextValue(k.data.primary), k.data.vpnAddrs, TextValue(k.data.certName),
                TextValue(k.data.fingerprint), k.data.certGroups, TextValue(t.runs[k.runId].nebulaVersion))
  }

  // ORDER BY COALESCE(cert_name, primary_vpn_addr), primary_vpn_addr
  predicate SortsBefore(a: Child, b: Child) {
    a.data.Host? && b.data.Host? &&
    var x := SortName(a);
    var y := SortName(b);
    TextLess(x, y) || (x == y && TextLess(TextValue(a.data.primary), TextValue(b.data.primary)))
  }

  function SortName(k: Child): string
    requires k.data.Host?
  {
    if k.data.certName.Some? then k.data.certName.value else TextValue(k.data.primary)
  }

  // Each row once, in order.
  ghost predicate Sorted(rows: seq<Child>) {
    forall i, j | 0 <= i < j < |rows| :: rows[i] != rows[j] && !SortsBefore(rows[j], rows[i])
  }

  // An answer of the query: the present rows, those with equal sort keys in any order.
  ghost predicate Listing(t: Tables, rows: seq<Child>) {
    IsPresentRows(t, set k <- rows) && Sorted(rows)
  }

  lemma SortsBeforeIsStrict()
    ensures StrictOrder(SortsBefore)
  {
    forall a: Child, b: Child, c: Child | SortsBefore(a, b) && SortsBefore(b, c)
      ensures SortsBefore(a, c)
    {
      var x, y, z := SortName(a), SortName(b), SortName(c);
      if TextLess(x, y) && TextLess(y, z) {
        TextLessTransitive(x, y, z);
      } else if x == y == z {
        TextLessTransitive(TextValue(a.data.primary), TextValue(b.data.primary), TextValue(c.data.primary));
      }
    }
    forall a: Child | a.data.Host?
      ensures !SortsBefore(a, a)
    {
      TextLessIrreflexive(SortName(a));
      TextLessIrreflexive(TextValue(a.data.primary));
    }
  }

  lemma LeastRow(picked: set<Child>) returns (first: Child)
    requires picked != {}
    ensures first in picked && forall k <- picked :: !SortsBefore(k, first)
  {
    SortsBeforeIsStrict();
    var one := (k: Child) => 0;
    RankOneExists(picked, one, SortsBefore);
    var least :| least <= picked && IsRankOne(least, picked, one, SortsBefore);
    var x := AnyOf(picked);
    assert HasKey(least, one, one(x));
    first := AnyOf(least);
    forall k <- picked
      ensures !SortsBefore(k, first)
    {
      assert one(first) == one(k);
    }
  }

  lemma {:induction false} SortedRows(picked: set<Child>) returns (rows: seq<Child>)
    ensures Sorted(rows) && picked == set k <- rows
    decreases |picked|
  {
    if picked == {} {
      rows := [];
    } else {
      var first := LeastRow(picked);
      assert picked == (picked - {first}) + {first};
      var rest := SortedRows(picked - {first});
      rows := [first] + rest;
      assert forall k <- rest :: k in picked - {first};
    }
  }

  // The query always has an answer.
  lemma ListingExists(t: Tables) returns (rows: seq<Child>)
    requires Linked(t) && Indexed(t)
    ensures Listing(t, rows)
  {
    PresentRowsAreDetermined(t);
    var picked :| IsPresentRows(t, picked);
    rows := SortedRows(picked);
  }

  lemma ListedRow(t: Tables, rows: seq<Child>, k: Child)
    requires Listing(t, rows) && k in rows
    ensures Joined(t, k)
  {
    var picked := set k <- rows;
    assert k in picked && k in JoinedRows(t);
  }

  // `peers` is what the store returns for the tables.
  ghost predicate Returned(t: Tables, rows: seq<Child>, peers: seq<PresentPeer>) {
    && Listing(t, rows) && |peers| == |rows|
    && forall i | 0 <= i < |rows| :: Joined(t, rows[i]) && peers[i] == ToPeer(t, rows[i])
  }

  // The query: one representative of each key, then the sort, equal sort keys in any order.
  method PresentRows(t: Tables) returns (rows: seq<Child>)
    requires Linked(t) && Indexed(t)
    ensures Listing(t, rows)
  {
    PresentRowsAreDetermined(t);
    var picked :| picked <= JoinedRows(t) && IsRankOne(picked, JoinedRows(t), PeerKey, RanksBefore);
    rows := Sort(picked);
  }

  ghost predicate Behind(rows: seq<Child>, rest: set<Child>) {
    forall a <- rows, b <- rest :: a != b && !SortsBefore(b, a)
  }

  lemma SortedSnoc(rows: seq<Child>, rest: set<Child>, first: Child)
    requires Sorted(rows) && Behind(rows, rest)
    requires first in rest && forall k <- rest :: !SortsBefore(k, first)
    ensures Sorted(rows + [first]) && Behind(rows + [first], rest - {first})
  {
    forall i | 0 <= i < |rows|
      ensures rows[i] != first && !SortsBefore(first, rows[i])
    {
      assert rows[i] in rows;
    }
  }

  method Sort(picked: set<Child>) returns (rows: seq<Child>)
    ensures Sorted(rows) && picked == set k <- rows
  {
    rows := [];
    var rest := picked;
    while rest != {}
      invariant rest <= picked && forall k :: k in rows <==> k in picked - rest
      invariant Sorted(rows) && Behind(rows, rest)
      decreases rest
    {
      ghost var least := LeastRow(rest);
      var first :| first in rest && forall k <- rest :: !SortsBefore(k, first);
      SortedSnoc(rows, rest, first);
      rows := rows + [first];
      rest := rest - {first};
    }
  }

  method ListPresentHostmapPeers(t: Tables) returns (peers: seq<PresentPeer>, ghost rows: seq<Child>)
    requires Linked(t) && Indexed(t)
    ensures Returned(t, rows, peers)
    ensures exists some :: Returned(t, some, peers)
  {
    var found := PresentRows(t);
    rows, peers := found, [];
    for i := 0 to |found|
      invariant |peers| == i && forall j | 0 <= j < i :: Joined(t, found[j]) && peers[j] == ToPeer(t, found[j])
    {
      ListedRow(t, found, found[i]);
      peers := peers + [ToPeer(t, found[i])];
    }
    assert Returned(t, found, peers);
  }

  ghost predicate Discovered(cfg: SDConfig, peers: seq<PresentPeer>, ls: seq<Lighthouse>, target: string)
    requires AllSplit(ls)
  {
    Named(FirstOccurrences(PeerGroups(cfg, peers) + LighthouseGroups(cfg, ls)), target)
  }

  predicate RowHas(cfg: SDConfig, k: Child, target: string) {
    k.data.Host? && JoinHostPort(TextValue(k.data.primary), Itoa(cfg.port)) == target
  }

  // What is discovered: the addresses of the listed rows, none of which is skipped, and of the lighthouses.
  lemma DiscoveredIff(cfg: SDConfig, t: Tables, rows: seq<Child>, peers: seq<PresentPeer>,
                      ls: seq<Lighthouse>, target: string)
    requires Returned(t, rows, peers) && AllSplit(ls)
    ensures Discovered(cfg, peers, ls, target) <==>
            (exists k <- rows :: RowHas(cfg, k, target)) || exists l <- ls :: LighthouseHas(cfg, l, target)
  {
    FirstOccurrencesCover(PeerGroups(cfg, peers) + LighthouseGroups(cfg, ls));
    NamedAppend(PeerGroups(cfg, peers), LighthouseGroups(cfg, ls), target);
    PeerGroupsName(cfg, peers, target);
    LighthouseGroupsName(cfg, ls, target);
    if p :| p in peers && PeerHas(cfg, p, target) {
      var i :| 0 <= i < |peers| && peers[i] == p;
      assert rows[i] in rows && RowHas(cfg, rows[i], target);
    }
    if k :| k in rows && RowHas(cfg, k, target) {
      var i :| 0 <= i < |rows| && rows[i] == k;
      assert peers[i] in peers && PeerHas(cfg, peers[i], target);
    }
  }

  // Every entry with a primary address in a latest successful poll leads to a target: that of a row of
  // the same peer key, at least as new.
  lemma EveryPeerIsDiscovered(cfg: SDConfig, t: Tables, rows: seq<Child>, peers: seq<PresentPeer>,
                              ls: seq<Lighthouse>, k: Child) returns (p: Child)
    requires Returned(t, rows, peers) && AllSplit(ls) && Joined(t, k)
    ensures p in rows && PeerKey(p) == PeerKey(k) && p.observedAt >= k.observedAt
    ensures Discovered(cfg, peers, ls, JoinHostPort(TextValue(p.data.primary), Itoa(cfg.port)))
  {
    var picked := set k <- rows;
    EveryPeerIsRepresented(t, picked, k);
    p :| p in picked && PeerKey(p) == PeerKey(k) && p.observedAt >= k.observedAt;
    ListedRow(t, rows, p);
    var target := JoinHostPort(TextValue(p.data.primary), Itoa(cfg.port));
    assert RowHas(cfg, p, target);
    DiscoveredIff(cfg, t, rows, peers, ls, target);
  }

  // If every lighthouse's newest successful poll is younger than the cutoff, the targets are the same at
  // every moment of every run as if nothing had been pruned.
  lemma TargetsUndisturbed(s: Sys, steps: seq<Step>, c: Cuts, cfg: SDConfig, ls: seq<Lighthouse>, target: string,
                           rows: seq<Child>, peers: seq<PresentPeer>, rows': seq<Child>, peers': seq<PresentPeer>)
    requires Init(s) && IsRun(s, steps) && StartsWithin(steps, c, s.forward)
    requires LatestLive(Saves(s.db, steps), c) && AllSplit(ls)
    requires Returned(End(s, steps).db, rows, peers) && Returned(Saves(s.db, steps), rows', peers')
    ensures Discovered(cfg, peers, ls, target) <==> Discovered(cfg, peers', ls, target)
  {
    PresentPeersUndisturbed(s, steps, c);
    RunKeepsInv(s, steps);
    SavedIsSaves(s, steps);
    PresentRowsAreDetermined(Saves(s.db, steps));
    var picked, picked' := set k <- rows, set k <- rows';
    assert IsPresentRows(Saves(s.db, steps), picked);
    assert picked == picked';
    assert forall k :: k in rows <==> k in picked;
    assert forall k :: k in rows' <==> k in picked';
    DiscoveredIff(cfg, End(s, steps).db, rows, peers, ls, target);
    DiscoveredIff(cfg, Saves(s.db, steps), rows', peers', ls, target);
  }
}
