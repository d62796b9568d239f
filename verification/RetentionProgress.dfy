/** Prunes end: however their steps interleave, without new saves and prunes they all come to an end. */
module RetentionProgress {
  import opened Basics
  import opened History
  import opened Batches
  import opened Retention
  import opened RetentionReaders

  // Two for each command still to do, less one once its batch has been chosen.
  function Weight(p: Prune): nat {
    if p.todo == [] then 0
    else 2 * |p.todo| - if p.listed.Some? || p.matched.Some? then 1 else 0
  }

  function Work(prunes: seq<Prune>): nat {
    if prunes == [] then 0 else Weight(prunes[0]) + Work(prunes[1..])
  }

  // A batch that is not the last of its loop deletes something, which pays for choosing the next one.
  function Remaining(s: Sys): nat {
    2 * (|s.db.runs.Keys| + |s.db.kids|) + Work(s.prunes)
  }

  lemma {:induction false} WorkUpdate(prunes: seq<Prune>, w: nat, p: Prune)
    requires w < |prunes|
    ensures Work(prunes[w := p]) == Work(prunes) - Weight(prunes[w]) + Weight(p)
  {
    if w == 0 {
      assert prunes[w := p][1..] == prunes[1..];
    } else {
      assert prunes[w := p][1..] == prunes[1..][w - 1 := p];
      WorkUpdate(prunes[1..], w - 1, p);
    }
  }

  lemma PartIsSmaller(t: Tables, u: Tables)
    requires u.runs.Keys <= t.runs.Keys && u.kids <= t.kids
    ensures |u.runs.Keys| <= |t.runs.Keys| && |u.kids| <= |t.kids|
  {
    SubsetOfEqualSize(u.runs.Keys, t.runs.Keys);
    SubsetOfEqualSize(u.kids, t.kids);
  }

  lemma DeletedRunsCount(t: Tables, ids: set<int>)
    ensures |DeleteRuns(t, ids).runs.Keys| == |t.runs.Keys| - |t.runs.Keys * ids|
  {
    assert t.runs.Keys == DeleteRuns(t, ids).runs.Keys + t.runs.Keys * ids;
  }

  lemma DeletedRowsCount(t: Tables, rows: set<Child>)
    ensures |DeleteRows(t, rows).kids| == |t.kids| - |t.kids * rows|
  {
    assert t.kids == DeleteRows(t, rows).kids + t.kids * rows;
  }

  lemma RawDecreases(s: Sys, who: nat)
    requires Inv(s) && Enabled(s, RawStep(who))
    ensures Remaining(Apply(s, RawStep(who))) < Remaining(s)
  {
    DeletedRowsCount(s.db, s.prunes[who].matched.value);
    WorkUpdate(s.prunes, who, Apply(s, RawStep(who)).prunes[who]);
  }

  lemma DeleteDecreases(s: Sys, who: nat)
    requires Inv(s) && Enabled(s, DeleteStep(who))
    ensures Remaining(Apply(s, DeleteStep(who))) < Remaining(s)
  {
    var ids := s.prunes[who].listed.value;
    DeletedRunsCount(s.db, ids);
    PartIsSmaller(s.db, DeleteRuns(s.db, ids));
    WorkUpdate(s.prunes, who, Apply(s, DeleteStep(who)).prunes[who]);
  }

  lemma StepDecreases(s: Sys, e: Step)
    requires Inv(s) && Enabled(s, e) && !e.Save? && !e.Start?
    ensures Remaining(Apply(s, e)) < Remaining(s)
  {
    if e.RawStep? {
      RawDecreases(s, e.who);
    } else if e.DeleteStep? {
      DeleteDecreases(s, e.who);
    } else {
      PartIsSmaller(s.db, Apply(s, e).db);
      WorkUpdate(s.prunes, e.who, Apply(s, e).prunes[e.who]);
    }
  }

  // With any number of prunes, whatever they interleave and wherever they stop, only so many steps can
  // be taken before something is saved or a prune starts.
  lemma {:induction false} RunsAreBounded(s: Sys, steps: seq<Step>)
    requires Inv(s) && IsRun(s, steps) && forall e <- steps :: !e.Save? && !e.Start?
    ensures |steps| <= Remaining(s)
    decreases |steps|
  {
    if steps == [] {
    } else {
      StepKeepsInv(s, steps[0]);
      StepDecreases(s, steps[0]);
      RunsAreBounded(Apply(s, steps[0]), steps[1..]);
    }
  }

  // And a prune that has something to do can always do it.
  lemma NeverStuck(s: Sys, w: nat) returns (e: Step)
    requires Doing(s, w)
    ensures Enabled(s, e) && !e.Save? && !e.Start? && !e.Stop? && e.who == w
  {
    match Head(s, w)
    case Drop(_, _) => e := DropStep(w);
    case RawBatches(cutoff) =>
      OldestExists(ExpiredRaws(s.db, cutoff), s.limit, RowTime());
      var batch :| IsOldest(batch, ExpiredRaws(s.db, cutoff), s.limit, RowTime());
      e := if s.prunes[w].matched.None? then MatchStep(w, batch) else RawStep(w);
    case RunBatches(cutoff) =>
      OldestExists(ExpiredRuns(s.db, cutoff), s.limit, RunTime(s.db));
      var ids :| IsOldest(ids, ExpiredRuns(s.db, cutoff), s.limit, RunTime(s.db));
      e := if s.prunes[w].listed.None? then ListStep(w, ids) else DeleteStep(w);
  }

  ghost predicate Own(steps: seq<Step>) {
    forall e <- steps :: !e.Start? && !e.Save? && !e.Stop?
  }

  lemma {:induction false} CanFinish(s: Sys) returns (steps: seq<Step>)
    requires Inv(s) && |s.prunes| == 1
    ensures IsRun(s, steps) && Own(steps)
    ensures |End(s, steps).prunes| == 1 && End(s, steps).prunes[0].todo == []
    decreases Remaining(s)
  {
    if s.prunes[0].todo == [] {
      steps := [];
    } else {
      var e := NeverStuck(s, 0);
      StepKeepsInv(s, e);
      StepDecreases(s, e);
      var rest := CanFinish(Apply(s, e));
      Chain(s, e, Apply(s, e), rest);
      steps := [e] + rest;
    }
  }

  // So a prune of any tables can run to its end, and that is what retention keeps.
  lemma EveryPruneCanFinish(t: Tables, cfg: Config, now: int) returns (steps: seq<Step>)
    requires Linked(t) && Timed(t, NeedsClock(cfg)) && Indexed(t)
    ensures PrunesTo(t, cfg, now, steps, After(CutsAt(cfg, now), t))
  {
    var s := Sys(t, t, t.runs.Keys, [Prune(Program(cfg, now), None, None, false)], BATCH_SIZE, NeedsClock(cfg));
    steps := CanFinish(s);
    WholePruneIsAfter(t, cfg, now, steps, End(s, steps).db);
  }
}
