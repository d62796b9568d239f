/** `ListPresentHostmapPeers`: which peers the latest successful polls saw. */
module Presence {
  import opened Basics
  import opened History
  import opened Batches
  import opened Ranking

  /*** latest_poll: DISTINCT ON (lighthouse_name) ... ORDER BY lighthouse_name, started_at DESC, id DESC ***/

  predicate NewerRun(runs: map<int, Run>, a: int, b: int)
    requires a in runs && b in runs
  {
    runs[a].startedAt > runs[b].startedAt || (runs[a].startedAt == runs[b].startedAt && a > b)
  }

  predicate IsLatest(runs: map<int, Run>, id: int) {
    && id in runs && runs[id].success
    && forall o <- runs :: runs[o].success && runs[o].lighthouse == runs[id].lighthouse ==> !NewerRun(runs, o, id)
  }

  lemma LatestIsUnique(runs: map<int, Run>, a: int, b: int)
    requires IsLatest(runs, a) && IsLatest(runs, b) && runs[a].lighthouse == runs[b].lighthouse
    ensures a == b
  {
    assert !NewerRun(runs, a, b) && !NewerRun(runs, b, a);
  }

  // Latest-poll selection commutes with a completed prune: a latest poll that is live stays the
  // latest one, and no older run takes the place of one that expired.
  lemma LatestAfterPrune(c: Cuts, t: Tables, id: int)
    ensures IsLatest(After(c, t).runs, id) <==> IsLatest(t.runs, id) && RunLive(c, t.runs[id])
  {
    var after := After(c, t).runs;
    if IsLatest(after, id) {
      forall o <- t.runs | t.runs[o].success && t.runs[o].lighthouse == t.runs[id].lighthouse
        ensures !NewerRun(t.runs, o, id)
      {
        if RunLive(c, t.runs[o]) {
          assert o in after;
        }
      }
    }
  }

  // Same start time, same lighthouse, both successful: only the id tells them apart.
  ghost predicate Tied(runs: map<int, Run>, id: int) {
    id in runs && exists o <- runs ::
      o != id && runs[o].success && runs[o].lighthouse == runs[id].lighthouse && runs[o].startedAt == runs[id].startedAt
  }

  ghost predicate Resurrects(t: Tables, batch: set<int>, id: int) {
    && IsLatest(t.runs, id)
    && exists o ::
         o != id && IsLatest(DeleteRuns(t, batch).runs, o) && t.runs[o].lighthouse == t.runs[id].lighthouse
  }

  // Between batches of `limit` an older run can come back as a lighthouse's latest poll exactly when the
  // expired latest poll shares its start time with another one, and a batch can end among the runs of
  // that time: more rows than are strictly older, fewer than are no newer.
  lemma BatchResurrectsIffTied(t: Tables, cutoff: int, id: int, limit: nat)
    requires IsLatest(t.runs, id)
    ensures var at := t.runs[id].startedAt;
      (exists batch :: IsOldest(batch, ExpiredRuns(t, cutoff), limit, RunTime(t)) && Resurrects(t, batch, id))
      <==> Tied(t.runs, id) && at < cutoff && |ExpiredRuns(t, at)| < limit < |ExpiredRuns(t, at + 1)|
  {
    var at := t.runs[id].startedAt;
    if batch :| IsOldest(batch, ExpiredRuns(t, cutoff), limit, RunTime(t)) && Resurrects(t, batch, id) {
      ResurrectedIsTied(t, cutoff, id, batch, limit);
    }
    if Tied(t.runs, id) && at < cutoff && |ExpiredRuns(t, at)| < limit < |ExpiredRuns(t, at + 1)| {
      var batch := TiedBatch(t, cutoff, id, limit);
      assert IsOldest(batch, ExpiredRuns(t, cutoff), limit, RunTime(t)) && Resurrects(t, batch, id);
    }
  }

  lemma ResurrectedIsTied(t: Tables, cutoff: int, id: int, batch: set<int>, limit: nat)
    requires IsOldest(batch, ExpiredRuns(t, cutoff), limit, RunTime(t)) && Resurrects(t, batch, id)
    ensures var at := t.runs[id].startedAt;
      Tied(t.runs, id) && at < cutoff && |ExpiredRuns(t, at)| < limit < |ExpiredRuns(t, at + 1)|
  {
    var at := t.runs[id].startedAt;
    var after := DeleteRuns(t, batch).runs;
    var o :| o != id && IsLatest(after, o) && t.runs[o].lighthouse == t.runs[id].lighthouse;
    assert !NewerRun(t.runs, o, id);
    if id in after {
      assert NewerRun(after, id, o);
      assert false;
    }
    var expired := ExpiredRuns(t, cutoff);
    assert id in batch && id in expired && o in expired - batch;
    assert RunTime(t)(id) <= RunTime(t)(o);
    BatchAround(t, cutoff, id, o, batch, limit);
  }

  // A batch that takes `id` and leaves the tied `o` takes all older runs and no newer one.
  lemma BatchAround(t: Tables, cutoff: int, id: int, o: int, batch: set<int>, limit: nat)
    requires IsOldest(batch, ExpiredRuns(t, cutoff), limit, RunTime(t))
    requires id in batch && o in ExpiredRuns(t, cutoff) - batch && t.runs[o].startedAt == t.runs[id].startedAt
    ensures |ExpiredRuns(t, t.runs[id].startedAt)| < limit < |ExpiredRuns(t, t.runs[id].startedAt + 1)|
  {
    var at := t.runs[id].startedAt;
    var expired := ExpiredRuns(t, cutoff);
    var older, upTo := ExpiredRuns(t, at), ExpiredRuns(t, at + 1);
    forall r <- older
      ensures r in batch
    {
      assert r in expired && RunTime(t)(r) < RunTime(t)(id);
    }
    forall b <- batch
      ensures b in upTo
    {
      assert RunTime(t)(b) <= RunTime(t)(o);
    }
    SubsetOfEqualSize(older + {id}, batch);
    SubsetOfEqualSize(batch + {o}, upTo);
    SubsetOfEqualSize(batch + {o}, expired);
  }

  // The batch that shows it: everything strictly older, the latest poll itself, and as many more of
  // its time as fill the batch without the one it is tied with.
  lemma TiedBatch(t: Tables, cutoff: int, id: int, limit: nat) returns (batch: set<int>)
    requires IsLatest(t.runs, id) && Tied(t.runs, id) && t.runs[id].startedAt < cutoff
    requires |ExpiredRuns(t, t.runs[id].startedAt)| < limit < |ExpiredRuns(t, t.runs[id].startedAt + 1)|
    ensures IsOldest(batch, ExpiredRuns(t, cutoff), limit, RunTime(t)) && Resurrects(t, batch, id)
  {
    var at := t.runs[id].startedAt;
    var older, upTo := ExpiredRuns(t, at), ExpiredRuns(t, at + 1);
    var m :| m in t.runs && m != id && t.runs[m].success &&
      t.runs[m].lighthouse == t.runs[id].lighthouse && t.runs[m].startedAt == at;
    assert upTo == (upTo - {m}) + {m};
    batch := SetBetween(older + {id}, upTo - {m}, limit);
    SubsetOfEqualSize(batch, ExpiredRuns(t, cutoff));
    LeavesAnother(t, batch, id, m);
  }

  lemma LeavesAnother(t: Tables, batch: set<int>, id: int, m: int)
    requires IsLatest(t.runs, id) && id in batch && m in t.runs && m !in batch
    requires t.runs[m].success && t.runs[m].lighthouse == t.runs[id].lighthouse
    ensures Resurrects(t, batch, id)
  {
    var after := DeleteRuns(t, batch).runs;
    var left := set o <- after | after[o].success && after[o].lighthouse == t.runs[id].lighthouse;
    assert m in left;
    var o := Greatest(left, after);
    assert IsLatest(after, o);
  }

  lemma {:induction false} Greatest(ids: set<int>, runs: map<int, Run>) returns (top: int)
    requires ids != {}
    requires ids <= runs.Keys
    ensures top in ids && forall o <- ids :: !NewerRun(runs, o, top)
    decreases |ids|
  {
    var x := AnyOf(ids);
    if ids == {x} {
      top := x;
    } else {
      var y := Greatest(ids - {x}, runs);
      top := if NewerRun(runs, x, y) then x else y;
      assert forall o <- ids :: o == x || o in ids - {x};
    }
  }

  /*** ranked: hostmap rows of the latest polls, one per peer key ***/

  predicate Joined(t: Tables, k: Child) {
    && k in t.kids && IsLatest(t.runs, k.runId)
    && k.data.Host? && k.data.source == Hostmap && k.data.primary.Some? && k.data.primary.value != ""
  }

  function JoinedRows(t: Tables): set<Child> {
    set k <- t.kids | Joined(t, k)
  }

  // COALESCE(cert_fingerprint, primary_vpn_addr, local_index || ':' || remote_index)
  function PeerKey(k: Child): string {
    if !k.data.Host? then ""
    else if k.data.fingerprint.Some? then k.data.fingerprint.value
    else if k.data.primary.Some? then k.data.primary.value
    else Itoa(k.data.localIndex) + ":" + Itoa(k.data.remoteIndex)
  }

  // A peer is known by its certificate, without one by its address, and without either by its indexes.
  lemma PeerKeyIs(a: Child, b: Child)
    requires a.data.Host? && b.data.Host?
    ensures a.data.fingerprint.Some? ==> PeerKey(a) == a.data.fingerprint.value
    ensures a.data.fingerprint == None && a.data.primary.Some? ==> PeerKey(a) == a.data.primary.value
    ensures a.data.fingerprint == None && a.data.primary == None ==>
              PeerKey(a) == Itoa(a.data.localIndex) + ":" + Itoa(a.data.remoteIndex)
    ensures a.data.fingerprint.Some? && a.data.fingerprint == b.data.fingerprint ==> PeerKey(a) == PeerKey(b)
  {
  }

  function EntryIndex(k: Child): int {
    if k.data.Host? then k.data.entryIndex else 0
  }

  // ORDER BY observed_at DESC, lighthouse_name, entry_index
  predicate RanksBefore(a: Child, b: Child) {
    || a.observedAt > b.observedAt
    || (a.observedAt == b.observedAt &&
        (TextLess(a.lighthouse, b.lighthouse) ||
         (a.lighthouse == b.lighthouse && EntryIndex(a) < EntryIndex(b))))
  }

  lemma RanksBeforeIsStrict()
    ensures StrictOrder(RanksBefore)
  {
    forall a
      ensures !RanksBefore(a, a)
    {
      TextLessIrreflexive(a.lighthouse);
    }
    forall a, b, c | RanksBefore(a, b) && RanksBefore(b, c)
      ensures RanksBefore(a, c)
    {
      if TextLess(a.lighthouse, b.lighthouse) && TextLess(b.lighthouse, c.lighthouse) {
        TextLessTransitive(a.lighthouse, b.lighthouse, c.lighthouse);
      }
    }
  }

  // On the joined rows the order is total: one poll per lighthouse, one row per entry index.
  lemma RanksBeforeIsTotal(t: Tables)
    requires Linked(t) && Indexed(t)
    ensures TotalWithinKeys(JoinedRows(t), PeerKey, RanksBefore)
  {
    forall a <- JoinedRows(t), b <- JoinedRows(t)
      ensures a == b || RanksBefore(a, b) || RanksBefore(b, a)
    {
      TextLessTotal(a.lighthouse, b.lighthouse);
      if a.lighthouse == b.lighthouse {
        LatestIsUnique(t.runs, a.runId, b.runId);
      }
    }
  }

  ghost predicate IsPresentRows(t: Tables, picked: set<Child>) {
    IsRankOne(picked, JoinedRows(t), PeerKey, RanksBefore)
  }

  // The row set is a function of the tables: exactly one answer, whatever plan the query runs with.
  lemma PresentRowsAreDetermined(t: Tables)
    requires Linked(t) && Indexed(t)
    ensures exists picked :: IsPresentRows(t, picked)
    ensures forall p, q :: IsPresentRows(t, p) && IsPresentRows(t, q) ==> p == q
  {
    RanksBeforeIsStrict();
    RanksBeforeIsTotal(t);
    RankOneExists(JoinedRows(t), PeerKey, RanksBefore);
    var picked :| IsRankOne(picked, JoinedRows(t), PeerKey, RanksBefore);
    assert IsPresentRows(t, picked);
    forall p, q | IsPresentRows(t, p) && IsPresentRows(t, q)
      ensures p == q
    {
      RankOneIsUnique(p, q, JoinedRows(t), PeerKey, RanksBefore);
    }
  }

  // A present row is a hostmap entry with an address, of a successful poll no successful poll of its
  // lighthouse started after; and no other such row of its key is newer, or as new with a smaller
  // lighthouse name, or as new and of the same lighthouse with a smaller index.
  lemma PresentRowIsFirst(t: Tables, picked: set<Child>, p: Child, k: Child)
    requires IsPresentRows(t, picked) && p in picked
    ensures p in t.kids && p.data.Host? && p.data.source == Hostmap
    ensures p.data.primary.Some? && p.data.primary.value != ""
    ensures p.runId in t.runs && t.runs[p.runId].success
    ensures forall r <- t.runs :: t.runs[r].success && t.runs[r].lighthouse == t.runs[p.runId].lighthouse ==>
              t.runs[r].startedAt <= t.runs[p.runId].startedAt
    ensures k in JoinedRows(t) && PeerKey(k) == PeerKey(p) ==>
      || p.observedAt > k.observedAt
      || (p.observedAt == k.observedAt &&
          (TextLess(p.lighthouse, k.lighthouse) ||
           (p.lighthouse == k.lighthouse && k.data.Host? && p.data.entryIndex <= k.data.entryIndex)))
  {
    assert p in JoinedRows(t);
    forall r <- t.runs | t.runs[r].success && t.runs[r].lighthouse == t.runs[p.runId].lighthouse
      ensures t.runs[r].startedAt <= t.runs[p.runId].startedAt
    {
      assert !NewerRun(t.runs, r, p.runId);
    }
    TextLessTotal(p.lighthouse, k.lighthouse);
    assert k in JoinedRows(t) && PeerKey(k) == PeerKey(p) ==> !RanksBefore(k, p);
  }

  // Which rows are joined: all entries of that kind of the latest polls.
  lemma JoinedIff(t: Tables, k: Child)
    ensures k in JoinedRows(t) <==>
            && k in t.kids && k.data.Host? && k.data.source == Hostmap
            && k.data.primary.Some? && k.data.primary.value != "" && IsLatest(t.runs, k.runId)
  {
  }

  // Every entry with a primary address in a latest successful poll is represented, by a row of
  // the same key that is at least as new.
  lemma EveryPeerIsRepresented(t: Tables, picked: set<Child>, k: Child)
    requires IsPresentRows(t, picked) && Joined(t, k)
    ensures exists p <- picked :: PeerKey(p) == PeerKey(k) && p.observedAt >= k.observedAt
  {
    assert k in JoinedRows(t);
    var p :| p in picked && PeerKey(p) == PeerKey(k);
    assert !RanksBefore(k, p);
  }
}
