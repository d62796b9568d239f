/** Which poll is a lighthouse's latest one, at every moment of every run of saves and prunes. */
module RetentionLatest {
  import opened Basics
  import opened History
  import opened Batches
  import opened Retention
  import opened RetentionRace
  import opened Presence

  // No successful polls of a lighthouse started at the same time.
  ghost predicate DistinctStarts(runs: map<int, Run>) {
    forall a <- runs, b <- runs |
      runs[a].success && runs[b].success && runs[a].lighthouse == runs[b].lighthouse &&
      runs[a].startedAt == runs[b].startedAt :: a == b
  }

  // Runs that are gone had expired and are no newer than any that is left.
  ghost predicate GoneAreOldest(s: Sys, c: Cuts) {
    forall d <- s.saved.runs | d !in s.db.runs ::
      !RunLive(c, s.saved.runs[d]) && forall r <- s.db.runs :: s.saved.runs[d].startedAt <= s.db.runs[r].startedAt
  }

  // So are the listed ones, among those that are left.
  ghost predicate OldestOf(runs: map<int, Run>, ids: set<int>) {
    forall i <- ids, r <- runs :: i in runs && r !in ids ==> runs[i].startedAt <= runs[r].startedAt
  }

  ghost predicate ListedAreOldest(s: Sys) {
    forall w: nat | w < |s.prunes| && s.prunes[w].listed.Some? :: OldestOf(s.db.runs, s.prunes[w].listed.value)
  }

  lemma OldestOfList(t: Tables, ids: set<int>, cutoff: int, limit: nat)
    requires IsOldest(ids, ExpiredRuns(t, cutoff), limit, RunTime(t))
    ensures OldestOf(t.runs, ids)
  {
    forall i <- ids, r <- t.runs | i in t.runs && r !in ids
      ensures t.runs[i].startedAt <= t.runs[r].startedAt
    {
      assert i in ExpiredRuns(t, cutoff);
      if t.runs[r].startedAt < cutoff {
        assert r in ExpiredRuns(t, cutoff) - ids;
        assert RunTime(t)(i) <= RunTime(t)(r);
      }
    }
  }

  lemma StepKeepsListedOldest(s: Sys, e: Step, c: Cuts)
    requires Inv(s) && Enabled(s, e) && ListedAreOldest(s) && Commanded(s, c, true)
    requires e.Save? ==> RunLive(c, e.poll.run)
    ensures ListedAreOldest(Apply(s, e))
  {
    var s' := Apply(s, e);
    forall w: nat | w < |s'.prunes| && s'.prunes[w].listed.Some?
      ensures OldestOf(s'.db.runs, s'.prunes[w].listed.value)
    {
      if e.ListStep? && e.who == w {
        OldestOfList(s.db, e.ids, Head(s, w).cutoff, s.limit);
      } else {
        assert w < |s.prunes| && s.prunes[w] == s'.prunes[w];
        assert CmdWithin(c, true, s.prunes[w].todo[0]);
        assert OldestOf(s.db.runs, s.prunes[w].listed.value);
      }
    }
  }

  lemma StepKeepsGoneOldest(s: Sys, e: Step, c: Cuts)
    requires Inv(s) && Enabled(s, e) && GoneAreOldest(s, c) && ListedAreOldest(s) && Commanded(s, c, true)
    requires e.Save? ==> RunLive(c, e.poll.run)
    ensures GoneAreOldest(Apply(s, e), c)
  {
    if e.DeleteStep? {
      assert CmdWithin(c, true, Head(s, e.who));
      assert OldestOf(s.db.runs, s.prunes[e.who].listed.value);
    }
  }

  lemma {:induction false} RunKeepsOldest(s: Sys, steps: seq<Step>, c: Cuts)
    requires Inv(s) && IsRun(s, steps) && GoneAreOldest(s, c) && ListedAreOldest(s) && Commanded(s, c, true)
    requires StartsWithin(steps, c, true) && SavesLive(steps, c)
    ensures GoneAreOldest(End(s, steps), c)
    decreases |steps|
  {
    if steps == [] {
    } else {
      StepKeepsInv(s, steps[0]);
      StepKeepsCmds(s, steps[0], c, true);
      StepKeepsListedOldest(s, steps[0], c);
      StepKeepsGoneOldest(s, steps[0], c);
      RunKeepsOldest(Apply(s, steps[0]), steps[1..], c);
    }
  }

  // In every history of saves of unexpired polls and of any number of prunes, also between the listing
  // and the deleting of a batch: with distinct start times a lighthouse's latest poll is the latest one
  // ever saved, as long as that is there. No older run takes its place.
  lemma LatestIsNeverReplaced(s: Sys, steps: seq<Step>, c: Cuts, id: int)
    requires Init(s) && IsRun(s, steps) && StartsWithin(steps, c, true) && SavesLive(steps, c)
    requires DistinctStarts(Saves(s.db, steps).runs)
    ensures IsLatest(End(s, steps).db.runs, id) <==>
            IsLatest(Saves(s.db, steps).runs, id) && id in End(s, steps).db.runs
  {
    RunKeepsInv(s, steps);
    RunKeepsOldest(s, steps, c);
    SavedIsSaves(s, steps);
    LatestOfRest(End(s, steps).db.runs, End(s, steps).saved.runs, id);
  }

  lemma LatestOfRest(runs: map<int, Run>, all: map<int, Run>, id: int)
    requires DistinctStarts(all)
    requires forall r <- runs :: r in all && runs[r] == all[r]
    requires forall d <- all | d !in runs :: forall r <- runs :: all[d].startedAt <= runs[r].startedAt
    ensures IsLatest(runs, id) <==> IsLatest(all, id) && id in runs
  {
    if IsLatest(runs, id) {
      forall o <- all | all[o].success && all[o].lighthouse == all[id].lighthouse
        ensures !NewerRun(all, o, id)
      {
        if o in runs {
          assert !NewerRun(runs, o, id);
        } else {
          assert o != id && all[o].startedAt <= runs[id].startedAt;
        }
      }
    }
  }

  /*** The code's batches ***/

  lemma CodeBatchResurrectsIffTied(t: Tables, cutoff: int, id: int)
    requires IsLatest(t.runs, id)
    ensures var at := t.runs[id].startedAt;
      (exists batch :: IsOldest(batch, ExpiredRuns(t, cutoff), BATCH_SIZE, RunTime(t)) && Resurrects(t, batch, id))
      <==> Tied(t.runs, id) && at < cutoff && |ExpiredRuns(t, at)| < 1000 < |ExpiredRuns(t, at + 1)|
  {
    BatchResurrectsIffTied(t, cutoff, id, BATCH_SIZE);
  }

  // With n + 1 successful polls of one lighthouse that started together, deleting n leaves an older one.
  lemma BatchResurrects(n: nat)
    requires n > 0
    ensures var t := RunsOnly(Range(0, n + 1));
      exists batch :: IsOldest(batch, ExpiredRuns(t, 1), n, RunTime(t)) && Resurrects(t, batch, n)
  {
    var all := Range(0, n + 1);
    var t := RunsOnly(all);
    RunsOnlyDeletes(all, {});
    RunsOnlyExpired(all, 0);
    RunsOnlyExpired(all, 1);
    RangeSize(0, n + 1);
    assert n in all && t.runs[n] == SameRun();
    assert n - 1 in all && t.runs[n - 1] == SameRun();
    assert IsLatest(t.runs, n);
    BatchResurrectsIffTied(t, 1, n, n);
  }

  lemma CodeBatchResurrects()
    ensures var t := RunsOnly(Range(0, BATCH_SIZE + 1));
      exists batch :: IsOldest(batch, ExpiredRuns(t, 1), BATCH_SIZE, RunTime(t)) && Resurrects(t, batch, 1000)
  {
    BatchResurrects(BATCH_SIZE);
  }
}
