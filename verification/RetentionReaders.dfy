/** What readers see while prunes run, and what the two retention paths agree on. */
module RetentionReaders {
  import opened Basics
  import opened History
  import opened Retention
  import opened RetentionExact
  import opened Presence

  ghost predicate LatestLive(t: Tables, c: Cuts) {
    forall id <- t.runs :: IsLatest(t.runs, id) ==> RunLive(c, t.runs[id])
  }

  lemma LatestExists(runs: map<int, Run>, id: int) returns (top: int)
    requires id in runs && runs[id].success
    ensures IsLatest(runs, top) && runs[top].lighthouse == runs[id].lighthouse
  {
    var same := set o <- runs | runs[o].success && runs[o].lighthouse == runs[id].lighthouse;
    assert id in same;
    top := Greatest(same, runs);
  }

  // Pruning below a lighthouse's newest successful poll does not change which poll that is.
  lemma SameLatest(t: Tables, full: Tables, c: Cuts, id: int)
    requires SubTables(t, full) && After(c, t) == After(c, full) && LatestLive(full, c)
    ensures IsLatest(t.runs, id) <==> IsLatest(full.runs, id)
  {
    if IsLatest(t.runs, id) || IsLatest(full.runs, id) {
      assert id in full.runs;
      var top := LatestExists(full.runs, id);
      assert top in After(c, full).runs && top in t.runs;
      if IsLatest(full.runs, id) {
        LatestIsUnique(full.runs, id, top);
      }
    }
  }

  lemma SameJoinedRows(t: Tables, full: Tables, c: Cuts)
    requires Linked(full)
    requires SubTables(t, full) && After(c, t) == After(c, full) && LatestLive(full, c)
    ensures JoinedRows(t) == JoinedRows(full)
  {
    forall k
      ensures k in JoinedRows(t) <==> k in JoinedRows(full)
    {
      SameLatest(t, full, c, k.runId);
      if k in JoinedRows(full) {
        assert k in After(c, full).kids;
      }
    }
  }

  // If every lighthouse's newest successful poll is younger than the cutoff, readers see the same
  // present peers at every moment of every run, with or without chunk dropping, as if nothing had
  // ever been pruned.
  lemma PresentPeersUndisturbed(s: Sys, steps: seq<Step>, c: Cuts)
    requires Init(s) && IsRun(s, steps) && StartsWithin(steps, c, s.forward)
    requires LatestLive(Saves(s.db, steps), c)
    ensures forall picked :: IsPresentRows(End(s, steps).db, picked) <==> IsPresentRows(Saves(s.db, steps), picked)
  {
    RunKeepsInv(s, steps);
    RunKeepsCovered(s, steps, c);
    SavedIsSaves(s, steps);
    SameJoinedRows(End(s, steps).db, Saves(s.db, steps), c);
  }

  // A completed prune removes from the present peers exactly what polls that expired had seen.
  lemma JoinedAfterPrune(c: Cuts, t: Tables)
    requires Linked(t)
    ensures JoinedRows(After(c, t)) == set k <- JoinedRows(t) | RunLive(c, t.runs[k.runId])
  {
    forall k
      ensures k in JoinedRows(After(c, t)) <==> k in JoinedRows(t) && RunLive(c, t.runs[k.runId])
    {
      LatestAfterPrune(c, t, k.runId);
    }
  }

  /*** Chunk dropping refines the plain path ***/

  // `steps` is a whole, unstopped prune of `t` with nothing beside it, ending in `result`.
  ghost predicate PrunesTo(t: Tables, cfg: Config, now: int, steps: seq<Step>, result: Tables) {
    var s := Sys(t, t, t.runs.Keys, [Prune(Program(cfg, now), None, None, false)], BATCH_SIZE, NeedsClock(cfg));
    && IsRun(s, steps)
    && (forall e <- steps :: !e.Start? && !e.Save? && !e.Stop?)
    && |End(s, steps).prunes| == 1 && End(s, steps).prunes[0].todo == [] && End(s, steps).db == result
  }

  lemma {:induction false} UnstoppedStays(s: Sys, steps: seq<Step>, w: nat)
    requires IsRun(s, steps) && w < |s.prunes| && !s.prunes[w].stopped
    requires forall e <- steps :: !e.Stop?
    ensures w < |End(s, steps).prunes| && !End(s, steps).prunes[w].stopped
    decreases |steps|
  {
    if steps == [] {
    } else {
      UnstoppedStays(Apply(s, steps[0]), steps[1..], w);
    }
  }

  lemma {:induction false} NoSaves(t: Tables, steps: seq<Step>)
    requires forall e <- steps :: !e.Save?
    ensures Saves(t, steps) == t
    decreases |steps|
  {
    if steps == [] {
    } else {
      NoSaves(t, steps[1..]);
    }
  }

  lemma WholePruneIsAfter(t: Tables, cfg: Config, now: int, steps: seq<Step>, result: Tables)
    requires Linked(t) && Timed(t, NeedsClock(cfg)) && Indexed(t)
    requires PrunesTo(t, cfg, now, steps, result)
    ensures result == After(CutsAt(cfg, now), t)
  {
    var s := Sys(t, t, t.runs.Keys, [Prune(Program(cfg, now), None, None, false)], BATCH_SIZE, NeedsClock(cfg));
    ProgramWithin(cfg, now, CutsAt(cfg, now), s.forward);
    UnstoppedStays(s, steps, 0);
    StartedPruneIsExact(s, steps, 0, cfg, now);
    NoSaves(t, steps);
  }

  // Whatever ties the batches break, and whether or not chunks are dropped first, a prune of the
  // same tables at the same time ends in the same five tables.
  lemma ChunkDroppingRefines(t: Tables, plain: Config, chunked: Config, now: int,
                             steps: seq<Step>, steps': seq<Step>, result: Tables, result': Tables)
    requires Linked(t) && Timed(t, NeedsClock(chunked)) && Indexed(t)
    requires !plain.timescale && chunked == plain.(timescale := true)
    requires PrunesTo(t, plain, now, steps, result) && PrunesTo(t, chunked, now, steps', result')
    ensures result == result'
  {
    WholePruneIsAfter(t, plain, now, steps, result);
    WholePruneIsAfter(t, chunked, now, steps', result');
  }
}
