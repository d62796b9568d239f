/** End to end: from what a poll saw, through the tables and the query, to what service discovery serves. */
module Represented {
  import opened Basics
  import opened History
  import opened Retention
  import opened Ranking
  import opened Presence
  import opened Model
  import opened SavedPoll
  import opened Storage
  import opened Recorded
  import opened HostPort
  import opened TargetGroups
  import opened Discovery

  /*** Which saved polls the query reads ***/

  // A poll with an error is never the latest one of its lighthouse, whatever else is saved or pruned.
  lemma FailedPollIsNeverLatest(runs: map<int, Run>, result: PollResult, runId: int, base: int, addrs: seq<Data>)
    requires result.err.Some? && (runId in runs ==> runs[runId] == PollOf(result, runId, base, addrs).run)
    ensures !IsLatest(runs, runId)
  {
    RunRecordsPoll(result, runId, base, addrs);
  }

  ghost predicate StartsLast(t: Tables, result: PollResult, runId: int) {
    forall r <- t.runs :: t.runs[r].success && t.runs[r].lighthouse == result.lighthouse.name ==>
      t.runs[r].startedAt < result.startedAt || (t.runs[r].startedAt == result.startedAt && r < runId)
  }

  // A poll without one that started after all successful polls of its lighthouse is.
  lemma NewestPollIsLatest(t: Tables, result: PollResult, runId: int, base: int, addrs: seq<Data>)
    requires result.err.None? && runId !in t.runs && StartsLast(t, result, runId)
    ensures IsLatest(AddPoll(t, PollOf(result, runId, base, addrs)).runs, runId)
  {
    RunRecordsPoll(result, runId, base, addrs);
  }

  /*** What it returns of them ***/

  predicate HasAddress(e: HostmapEntry) {
    e.vpnAddrs != [] && e.vpnAddrs[0] != ""
  }

  // A peer is known by its certificate's fingerprint, or without one by its first address.
  function KeyOf(e: HostmapEntry): string
    requires HasAddress(e)
  {
    if e.cert.Some? && e.cert.value.fingerprint != "" then e.cert.value.fingerprint else e.vpnAddrs[0]
  }

  predicate PeerRecords(p: PresentPeer, result: PollResult, e: HostmapEntry) {
    && HasAddress(e) && p.primaryVPNAddr == e.vpnAddrs[0] && p.vpnAddrs == e.vpnAddrs && p.peerKey == KeyOf(e)
    && p.certName == (if e.cert.Some? then e.cert.value.name else "")
    && p.certFingerprint == (if e.cert.Some? then e.cert.value.fingerprint else "")
    && p.certGroups == (if e.cert.Some? then e.cert.value.groups else [])
    && p.lighthouseName == result.lighthouse.name && p.nebulaVersion == result.nebulaVersion
  }

  // The poll `result` was committed under `runId` on top of `t`, and `peers` is what the store then returns.
  ghost predicate ReturnedAfter(t: Tables, result: PollResult, runId: int, base: int, addrs: seq<Data>,
                                rows: seq<Child>, peers: seq<PresentPeer>) {
    && Linked(t) && runId !in t.runs && multiset(addrs) == AddrBag(result.addrmap)
    && Returned(AddPoll(t, PollOf(result, runId, base, addrs)), rows, peers)
  }

  // Every returned row of a saved poll is an entry of its hostmap, never one that is only pending, and
  // the peer has that entry's own fields.
  lemma PeerIsEntry(t: Tables, result: PollResult, runId: int, base: int, addrs: seq<Data>,
                    rows: seq<Child>, peers: seq<PresentPeer>, j: nat)
    requires ReturnedAfter(t, result, runId, base, addrs, rows, peers)
    requires j < |rows| && rows[j].runId == runId
    ensures result.err.None?
    ensures exists e <- result.hostmap :: RecordsEntry(rows[j], e) && PeerRecords(peers[j], result, e)
  {
    var p := PollOf(result, runId, base, addrs);
    var after := AddPoll(t, p);
    var k := rows[j];
    RowIsPresent(after, rows, j);
    RunRecordsPoll(result, runId, base, addrs);
    assert k in p.kids;
    HostRowIsEntry(result, runId, base, addrs, k);
    var e := result.hostmap[k.data.entryIndex];
    PeerKeyIs(k, k);
    PollOfIsLinked(result, runId, base, addrs);
    assert e in result.hostmap && PeerRecords(peers[j], result, e);
  }

  lemma RowIsPresent(t: Tables, rows: seq<Child>, j: nat)
    requires Listing(t, rows) && j < |rows|
    ensures var p := rows[j];
      && p in t.kids && p.data.Host? && p.data.source == Hostmap && p.data.primary.Some? && p.data.primary.value != ""
      && p.runId in t.runs && t.runs[p.runId].success
  {
    var picked := set k <- rows;
    PresentRowIsFirst(t, picked, rows[j], rows[j]);
  }

  // After the newest successful poll of a lighthouse is saved, each entry of its hostmap that has an
  // address is represented: a peer of the same key is returned, from a row at least as new.
  lemma EntryIsReturned(t: Tables, result: PollResult, runId: int, base: int, addrs: seq<Data>,
                        rows: seq<Child>, peers: seq<PresentPeer>, i: nat) returns (j: nat)
    requires ReturnedAfter(t, result, runId, base, addrs, rows, peers)
    requires result.err.None? && StartsLast(t, result, runId)
    requires i < |result.hostmap| && HasAddress(result.hostmap[i])
    ensures j < |peers| && peers[j].peerKey == KeyOf(result.hostmap[i]) && rows[j].observedAt >= result.startedAt
  {
    var after := AddPoll(t, PollOf(result, runId, base, addrs));
    NewestPollIsLatest(t, result, runId, base, addrs);
    var k := EntryIsRecorded(result, runId, base, addrs, Hostmap, i);
    PollOfIsStamped(result, runId, base, addrs);
    PollOfIsLinked(result, runId, base, addrs);
    JoinedIff(after, k);
    var picked := set r <- rows;
    EveryPeerIsRepresented(after, picked, k);
    var p :| p in picked && PeerKey(p) == PeerKey(k) && p.observedAt >= k.observedAt;
    j :| 0 <= j < |rows| && rows[j] == p;
    PeerKeyIs(k, k);
  }

  // Two entries with the same certificate are one peer.
  lemma OneCertificateOnePeer(t: Tables, rows: seq<Child>, peers: seq<PresentPeer>, i: nat, j: nat)
    requires Returned(t, rows, peers) && i < |rows| && j < |rows|
    requires rows[i].data.fingerprint.Some? && rows[i].data.fingerprint == rows[j].data.fingerprint
    ensures i == j
  {
    RowIsPresent(t, rows, i);
    RowIsPresent(t, rows, j);
    PeerKeyIs(rows[i], rows[j]);
    var picked := set k <- rows;
    assert rows[i] in picked && rows[j] in picked;
    assert rows[i] == rows[j];
  }

  // The listing is sorted by the name a target shows, and by the address within a name.
  lemma ListedByName(t: Tables, rows: seq<Child>, peers: seq<PresentPeer>, i: nat, j: nat)
    requires Returned(t, rows, peers) && i < j < |rows|
    requires rows[i].data.Host? && rows[j].data.Host?
    requires rows[i].data.certName != Some("") && rows[j].data.certName != Some("")
    ensures var a := if peers[i].certName == "" then peers[i].primaryVPNAddr else peers[i].certName;
      var b := if peers[j].certName == "" then peers[j].primaryVPNAddr else peers[j].certName;
      a == b || TextLess(a, b)
    ensures (if peers[i].certName == "" then peers[i].primaryVPNAddr else peers[i].certName) ==
            (if peers[j].certName == "" then peers[j].primaryVPNAddr else peers[j].certName) ==>
              !TextLess(peers[j].primaryVPNAddr, peers[i].primaryVPNAddr)
  {
    assert !SortsBefore(rows[j], rows[i]);
    TextLessTotal(SortName(rows[i]), SortName(rows[j]));
  }

  /*** Saving is a step of the system ***/

  // Whatever prunes are at work, a poll can be saved under a fresh id.
  lemma SaveIsEnabled(s: Sys, result: PollResult, id: int, base: int, addrs: seq<Data>)
    requires Inv(s) && id !in s.used && multiset(addrs) == AddrBag(result.addrmap)
    requires s.forward ==> ClockForward(result)
    ensures Enabled(s, Save(PollOf(result, id, base, addrs)))
    ensures Saved(s.db, result, id, base, addrs, Apply(s, Save(PollOf(result, id, base, addrs))).db)
  {
    BagMembers(addrs, result.addrmap);
    PollOfIsLinked(result, id, base, addrs);
    PollOfIsStamped(result, id, base, addrs);
    PollOfIsIndexed(result, id, base, addrs);
    PollOfIsOrderedIffClockForward(result, id, base, addrs);
  }
}
