/** When a delete loop may stop with expired rows left: never alone, but two prunes at once may both stop early. */
module RetentionRace {
  import opened Basics
  import opened History
  import opened Batches
  import opened Retention
  import opened RetentionExact

  /*** Exactly when a loop ends early, with any number of prunes ***/

  // A list shorter than the limit holds every run that is expired for its cutoff.
  ghost predicate ShortListWhole(s: Sys, p: Prune) {
    p.listed.Some? ==>
      && p.todo != [] && p.todo[0].RunBatches?
      && |p.listed.value| <= s.limit
      && (|p.listed.value| < s.limit ==> ExpiredRuns(s.db, p.todo[0].cutoff) <= p.listed.value)
  }

  // Matches fewer than the limit hold every raw payload that is expired for its cutoff.
  ghost predicate ShortMatchWhole(s: Sys, p: Prune) {
    p.matched.Some? ==>
      && p.todo != [] && p.todo[0].RawBatches?
      && (|p.matched.value| < s.limit ==> ExpiredRaws(s.db, p.todo[0].cutoff) <= p.matched.value)
  }

  ghost predicate SavesLive(steps: seq<Step>, c: Cuts) {
    forall e <- steps :: e.Save? ==> RunLive(c, e.poll.run)
  }

  ghost predicate SavesFresh(steps: seq<Step>, c: Cuts) {
    forall e <- steps :: e.Save? ==> FreshPoll(c, e.poll)
  }

  lemma ExpiredRunsShrink(s: Sys, e: Step, c: Cuts, cutoff: int)
    requires Inv(s) && Enabled(s, e) && NoLater(Some(cutoff), c.runs)
    requires e.Save? ==> RunLive(c, e.poll.run)
    ensures ExpiredRuns(Apply(s, e).db, cutoff) <= ExpiredRuns(s.db, cutoff)
  {
  }

  lemma ExpiredRawsShrink(s: Sys, e: Step, c: Cuts, cutoff: int)
    requires Inv(s) && Enabled(s, e) && NoLater(Some(cutoff), c.raws)
    requires e.Save? ==> FreshPoll(c, e.poll)
    ensures ExpiredRaws(Apply(s, e).db, cutoff) <= ExpiredRaws(s.db, cutoff)
  {
  }

  lemma StepKeepsShortList(s: Sys, e: Step, c: Cuts, w: nat)
    requires Inv(s) && Enabled(s, e) && Commanded(s, c, true)
    requires w < |s.prunes| ==> ShortListWhole(s, s.prunes[w])
    requires e.Save? ==> RunLive(c, e.poll.run)
    ensures w < |Apply(s, e).prunes| ==> ShortListWhole(Apply(s, e), Apply(s, e).prunes[w])
  {
    if w < |s.prunes| && Apply(s, e).prunes[w].listed.Some? {
      var cutoff := Head(s, w).cutoff;
      if e.ListStep? && e.who == w {
        if |e.ids| < s.limit {
          ShortBatchIsAll(e.ids, ExpiredRuns(s.db, cutoff), s.limit, RunTime(s.db));
        }
      } else {
        assert CmdWithin(c, true, s.prunes[w].todo[0]);
        ExpiredRunsShrink(s, e, c, cutoff);
      }
    }
  }

  lemma StepKeepsShortMatch(s: Sys, e: Step, c: Cuts, w: nat)
    requires Inv(s) && Enabled(s, e) && Commanded(s, c, true)
    requires w < |s.prunes| ==> ShortMatchWhole(s, s.prunes[w])
    requires e.Save? ==> FreshPoll(c, e.poll)
    ensures w < |Apply(s, e).prunes| ==> ShortMatchWhole(Apply(s, e), Apply(s, e).prunes[w])
  {
    if w < |s.prunes| && Apply(s, e).prunes[w].matched.Some? {
      var cutoff := Head(s, w).cutoff;
      if e.MatchStep? && e.who == w {
        MatchedHoldsBatch(s.db, e.batch, cutoff, s.limit);
      } else {
        assert CmdWithin(c, true, s.prunes[w].todo[0]);
        ExpiredRawsShrink(s, e, c, cutoff);
      }
    }
  }

  lemma {:induction false} RunKeepsShortList(s: Sys, steps: seq<Step>, c: Cuts, w: nat)
    requires Inv(s) && IsRun(s, steps) && Commanded(s, c, true)
    requires w < |s.prunes| ==> ShortListWhole(s, s.prunes[w])
    requires StartsWithin(steps, c, true) && SavesLive(steps, c)
    ensures w < |End(s, steps).prunes| ==> ShortListWhole(End(s, steps), End(s, steps).prunes[w])
    decreases |steps|
  {
    if steps == [] {
    } else {
      StepKeepsInv(s, steps[0]);
      StepKeepsShortList(s, steps[0], c, w);
      StepKeepsCmds(s, steps[0], c, true);
      RunKeepsShortList(Apply(s, steps[0]), steps[1..], c, w);
    }
  }

  lemma {:induction false} RunKeepsShortMatch(s: Sys, steps: seq<Step>, c: Cuts, w: nat)
    requires Inv(s) && IsRun(s, steps) && Commanded(s, c, true)
    requires w < |s.prunes| ==> ShortMatchWhole(s, s.prunes[w])
    requires StartsWithin(steps, c, true) && SavesFresh(steps, c)
    ensures w < |End(s, steps).prunes| ==> ShortMatchWhole(End(s, steps), End(s, steps).prunes[w])
    decreases |steps|
  {
    if steps == [] {
    } else {
      StepKeepsInv(s, steps[0]);
      StepKeepsShortMatch(s, steps[0], c, w);
      StepKeepsCmds(s, steps[0], c, true);
      RunKeepsShortMatch(Apply(s, steps[0]), steps[1..], c, w);
    }
  }

  predicate IsDelete(e: Step) {
    e.MatchStep? || e.RawStep? || e.ListStep? || e.DeleteStep?
  }

  // The step ends a delete loop while something is still expired for it.
  ghost predicate EndsEarly(s: Sys, e: Step)
    requires Enabled(s, e) && IsDelete(e)
  {
    |Apply(s, e).prunes[e.who].todo| < |s.prunes[e.who].todo| && !Cleared(Apply(s, e).db, Head(s, e.who))
  }

  // Another prune deleted something this one had chosen, which leaves it with a short count, and
  // something expired was not chosen. (Raw payloads with equal ids can make up for a lost one.)
  ghost predicate Overtaken(s: Sys, e: Step)
    requires Enabled(s, e)
  {
    || (e.DeleteStep? &&
        var ids := s.prunes[e.who].listed.value;
        !(ids <= s.db.runs.Keys) && !(ExpiredRuns(s.db, Head(s, e.who).cutoff) <= ids))
    || (e.RawStep? &&
        var rows := s.prunes[e.who].matched.value;
        !(rows <= s.db.kids) && |s.db.kids * rows| < s.limit && !(ExpiredRaws(s.db, Head(s, e.who).cutoff) <= rows))
  }

  // With unique ids no statement matches more rows than its batch, so a lost row is a short count.
  lemma MatchesFitBatch(t: Tables, batch: set<Child>, cutoff: int, limit: nat)
    requires IsOldest(batch, ExpiredRaws(t, cutoff), limit, RowTime())
    requires forall a <- ExpiredRaws(t, cutoff), b <- ExpiredRaws(t, cutoff) :: a.id == b.id ==> a == b
    ensures Matched(t, batch, cutoff) == batch && |batch| <= limit
  {
    forall k <- ExpiredRaws(t, cutoff)
      ensures k.id in Ids(batch) <==> k in batch
    {
      if k.id in Ids(batch) {
        var b :| b in batch && b.id == k.id;
      }
    }
  }

  lemma RawStepEndsEarlyIff(s: Sys, e: Step)
    requires Inv(s) && Enabled(s, e) && e.RawStep? && ShortMatchWhole(s, s.prunes[e.who])
    ensures EndsEarly(s, e) <==> Overtaken(s, e)
  {
    var cutoff, rows := Head(s, e.who).cutoff, s.prunes[e.who].matched.value;
    DeletedRowsLeave(s.db, rows, cutoff);
    assert rows <= s.db.kids <==> s.db.kids * rows == rows;
    var expired := ExpiredRaws(s.db, cutoff);
    assert forall k <- expired :: k in rows || k in expired - rows;
    assert expired - rows == {} <==> expired <= rows;
  }

  lemma StepEndsEarlyIff(s: Sys, e: Step)
    requires Inv(s) && Enabled(s, e) && IsDelete(e)
    requires e.DeleteStep? ==> ShortListWhole(s, s.prunes[e.who])
    requires e.RawStep? ==> ShortMatchWhole(s, s.prunes[e.who])
    ensures EndsEarly(s, e) <==> Overtaken(s, e)
  {
    var cutoff := Head(s, e.who).cutoff;
    match e
    case MatchStep(_, _) =>
    case RawStep(_) => RawStepEndsEarlyIff(s, e);
    case ListStep(_, ids) =>
      if ids == {} {
        ShortBatchIsAll(ids, ExpiredRuns(s.db, cutoff), s.limit, RunTime(s.db));
      }
    case DeleteStep(who) =>
      var ids := s.prunes[who].listed.value;
      DeletedRunsLeave(s.db, ids, cutoff);
      SubsetOfEqualSize(s.db.runs.Keys * ids, ids);
      assert ids <= s.db.runs.Keys <==> s.db.runs.Keys * ids == ids;
      var expired := ExpiredRuns(s.db, cutoff);
      assert forall id <- expired :: id in ids || id in expired - ids;
      assert expired - ids == {} <==> expired <= ids;
  }

  // In every history of saves of unexpired polls and of any number of prunes, a delete loop ends with
  // something expired left exactly when its prune was overtaken. Runs need only unexpired runs saved.
  lemma LoopEndsEarlyIffOvertaken(s: Sys, steps: seq<Step>, c: Cuts, e: Step)
    requires Init(s) && IsRun(s, steps) && StartsWithin(steps, c, true)
    requires SavesLive(steps, c) && (e.RawStep? ==> SavesFresh(steps, c))
    requires Enabled(End(s, steps), e) && IsDelete(e)
    ensures EndsEarly(End(s, steps), e) <==> Overtaken(End(s, steps), e)
  {
    RunKeepsInv(s, steps);
    RunKeepsShortList(s, steps, c, e.who);
    if e.RawStep? {
      RunKeepsShortMatch(s, steps, c, e.who);
    }
    StepEndsEarlyIff(End(s, steps), e);
  }

  /*** A prune that is never overtaken is exact, whatever the others do ***/

  ghost predicate NeverOvertaken(s: Sys, steps: seq<Step>, w: nat)
    requires IsRun(s, steps)
    decreases |steps|
  {
    steps == [] ||
    (!(Overtaken(s, steps[0]) && steps[0].who == w) &&
     NeverOvertaken(Apply(s, steps[0]), steps[1..], w))
  }

  // Prune `w` has cleared the commands it is done with; others may be at work.
  ghost predicate Underway(s: Sys, w: nat, program: seq<Cmd>) {
    && w < |s.prunes| && IsRest(s.prunes[w].todo, program)
    && ShortListWhole(s, s.prunes[w]) && ShortMatchWhole(s, s.prunes[w])
    && forall i | 0 <= i < |program| - |s.prunes[w].todo| :: Cleared(s.db, program[i])
  }

  lemma StepOnlyPops(s: Sys, e: Step, w: nat, program: seq<Cmd>)
    requires Enabled(s, e) && w < |s.prunes| && IsRest(s.prunes[w].todo, program) && !(e.Stop? && e.who == w)
    ensures var todo := Apply(s, e).prunes[w].todo;
      && IsRest(todo, program)
      && (todo == s.prunes[w].todo ||
          (s.prunes[w].todo != [] && todo == s.prunes[w].todo[1..] && (e.DropStep? || IsDelete(e)) && e.who == w))
  {
    if s.prunes[w].todo != [] {
      RestOfRest(s.prunes[w].todo, program);
    }
  }

  lemma StepKeepsUnderway(s: Sys, e: Step, w: nat, program: seq<Cmd>, c: Cuts)
    requires Inv(s) && Enabled(s, e) && Underway(s, w, program) && Commanded(s, c, true)
    requires forall cmd <- program :: CmdWithin(c, s.forward, cmd)
    requires !(e.Stop? && e.who == w) && (e.Save? ==> FreshPoll(c, e.poll))
    requires !(Overtaken(s, e) && e.who == w)
    ensures Underway(Apply(s, e), w, program)
  {
    StepOnlyPops(s, e, w, program);
    StepKeepsShortList(s, e, c, w);
    StepKeepsShortMatch(s, e, c, w);
    forall i: nat | i < |program| - |Apply(s, e).prunes[w].todo|
      ensures Cleared(Apply(s, e).db, program[i])
    {
      if i == |program| - |s.prunes[w].todo| {
        if IsDelete(e) {
          StepEndsEarlyIff(s, e);
        }
      } else {
        ClearedStays(s, e, c, program[i]);
      }
    }
  }

  lemma ClearedStays(s: Sys, e: Step, c: Cuts, cmd: Cmd)
    requires Inv(s) && Enabled(s, e) && Cleared(s.db, cmd) && CmdWithin(c, s.forward, cmd)
    requires e.Save? ==> FreshPoll(c, e.poll)
    ensures Cleared(Apply(s, e).db, cmd)
  {
    if e.Save? {
      ClearedByLive(s.db, e.poll, c, s.forward, cmd);
    } else {
      ClearedByPart(s.db, Apply(s, e).db, cmd);
    }
  }

  lemma {:induction false} RunKeepsUnderway(s: Sys, steps: seq<Step>, w: nat, program: seq<Cmd>, c: Cuts)
    requires Inv(s) && IsRun(s, steps) && Commanded(s, c, true) && Underway(s, w, program)
    requires forall cmd <- program :: CmdWithin(c, s.forward, cmd)
    requires StartsWithin(steps, c, true) && SavesFresh(steps, c) && NeverOvertaken(s, steps, w)
    requires w < |End(s, steps).prunes| && !End(s, steps).prunes[w].stopped
    ensures Underway(End(s, steps), w, program)
    decreases |steps|
  {
    if steps == [] {
    } else {
      var e := steps[0];
      if e.Stop? && e.who == w {
        StoppedStays(Apply(s, e), steps[1..], w);
      }
      StepKeepsUnderway(s, e, w, program, c);
      StepKeepsInv(s, e);
      StepKeepsCmds(s, e, c, true);
      RunKeepsUnderway(Apply(s, e), steps[1..], w, program, c);
    }
  }

  ghost predicate Ready(s: Sys, w: nat, cfg: Config, now: int) {
    Inv(s) && Covered(s, CutsAt(cfg, now)) && Underway(s, w, Program(cfg, now))
  }

  // A prune that has just started after any history of saves and prunes that deleted no more than it does.
  lemma {:induction false} StartAfterHistory(s: Sys, before: seq<Step>, cfg: Config, now: int, started: Sys)
    requires Init(s) && IsRun(s, before) && started == Apply(End(s, before), Start(cfg, now))
    requires StartsWithin(before, CutsAt(cfg, now), s.forward) && (NeedsClock(cfg) ==> s.forward)
    ensures started.prunes != [] && Ready(started, |started.prunes| - 1, cfg, now)
    ensures started.forward == s.forward && started.saved == Saves(s.db, before)
  {
    HistoryIsCovered(s, before, CutsAt(cfg, now));
    StartIsUnderway(End(s, before), cfg, now);
  }

  lemma StartIsUnderway(s: Sys, cfg: Config, now: int)
    requires Inv(s) && Covered(s, CutsAt(cfg, now)) && (NeedsClock(cfg) ==> s.forward)
    ensures var started := Apply(s, Start(cfg, now));
      && Ready(started, |s.prunes|, cfg, now) && |started.prunes| == |s.prunes| + 1
      && started.forward == s.forward && started.saved == s.saved
  {
    StepKeepsInv(s, Start(cfg, now));
    StepKeepsCovered(s, Start(cfg, now), CutsAt(cfg, now));
  }

  ghost predicate Finished(s: Sys, w: int) {
    0 <= w < |s.prunes| && s.prunes[w].todo == [] && !s.prunes[w].stopped
  }

  // From there on, if it finishes without being stopped or overtaken, it leaves exactly what "first do
  // every save, then prune" leaves, among saves of unexpired polls and any number of other prunes that
  // delete no more.
  lemma {:induction false} PruneIsExactUnlessOvertaken(s: Sys, during: seq<Step>, w: nat, cfg: Config, now: int)
    requires Ready(s, w, cfg, now)
    requires IsRun(s, during) && NeverOvertaken(s, during, w) && (NeedsClock(cfg) ==> s.forward)
    requires StartsWithin(during, CutsAt(cfg, now), s.forward) && SavesFresh(during, CutsAt(cfg, now))
    requires Finished(End(s, during), w)
    ensures End(s, during).db == After(CutsAt(cfg, now), Saves(s.saved, during))
  {
    RunKeepsInv(s, during);
    RunKeepsCovered(s, during, CutsAt(cfg, now));
    SavedIsSaves(s, during);
    FinishedIsCleared(s, during, w, cfg, now);
    ClearedProgramIsAfter(End(s, during).db, cfg, now);
  }

  lemma {:induction false} FinishedIsCleared(s: Sys, during: seq<Step>, w: nat, cfg: Config, now: int)
    requires Ready(s, w, cfg, now)
    requires IsRun(s, during) && NeverOvertaken(s, during, w) && (NeedsClock(cfg) ==> s.forward)
    requires StartsWithin(during, CutsAt(cfg, now), s.forward) && SavesFresh(during, CutsAt(cfg, now))
    requires Finished(End(s, during), w)
    ensures forall cmd <- Program(cfg, now) :: Cleared(End(s, during).db, cmd)
  {
    var c := CutsAt(cfg, now);
    ProgramWithin(cfg, now, c, s.forward);
    TrustMore(s, during, c);
    RunKeepsUnderway(s, during, w, Program(cfg, now), c);
  }

  // What holds without trusting clocks holds when trusting them.
  lemma TrustMore(s: Sys, steps: seq<Step>, c: Cuts)
    ensures Commanded(s, c, s.forward) ==> Commanded(s, c, true)
    ensures StartsWithin(steps, c, s.forward) ==> StartsWithin(steps, c, true)
  {
  }

  /*** It happens, for the code's batches too ***/

  function SameRun(): Run {
    Run(0, None, "lh", "u@h:22", true, None, None)
  }

  function RunsOnly(ids: set<int>): Tables {
    Tables(map id | id in ids :: SameRun(), {})
  }

  lemma RunsOnlyDeletes(ids: set<int>, gone: set<int>)
    ensures DeleteRuns(RunsOnly(ids), gone) == RunsOnly(ids - gone)
    ensures RunsOnly(ids).runs.Keys == ids
  {
    assert DeleteRuns(RunsOnly(ids), gone).runs == RunsOnly(ids - gone).runs;
  }

  lemma RunsOnlyExpired(ids: set<int>, cutoff: int)
    ensures ExpiredRuns(RunsOnly(ids), cutoff) == if cutoff > 0 then ids else {}
  {
    forall id
      ensures id in ExpiredRuns(RunsOnly(ids), cutoff) <==> id in ids && cutoff > 0
    {
    }
  }

  // Runs of equal age, of which `ids` are left; batches of n.
  function Among(n: nat, all: set<int>, ids: set<int>, prunes: seq<Prune>): Sys {
    Sys(RunsOnly(ids), RunsOnly(all), all, prunes, n, false)
  }

  function Listed(batch: set<int>): Prune {
    Prune([RunBatches(1)], Some(batch), None, false)
  }

  const UNLISTED := Prune([RunBatches(1)], None, None, false)
  const OVER := Prune([], None, None, false)

  lemma Lists(n: nat, all: set<int>, ids: set<int>, prunes: seq<Prune>, who: nat, batch: set<int>, next: seq<Prune>)
    requires who < |prunes| && prunes[who] == UNLISTED && next == prunes[who := Listed(batch)]
    requires batch <= ids && |batch| == n > 0
    ensures Enabled(Among(n, all, ids, prunes), ListStep(who, batch))
    ensures Apply(Among(n, all, ids, prunes), ListStep(who, batch)) == Among(n, all, ids, next)
  {
    RunsOnlyExpired(ids, 1);
    RunsOnlyDeletes(ids, {});
    SubsetOfEqualSize(batch, ids);
  }

  lemma Deletes(n: nat, all: set<int>, ids: set<int>, prunes: seq<Prune>, who: nat, batch: set<int>, next: seq<Prune>)
    requires who < |prunes| && prunes[who] == Listed(batch)
    requires next == prunes[who := if |ids * batch| < n then OVER else UNLISTED]
    ensures Enabled(Among(n, all, ids, prunes), DeleteStep(who))
    ensures Apply(Among(n, all, ids, prunes), DeleteStep(who)) == Among(n, all, ids - batch, next)
  {
    RunsOnlyDeletes(ids, batch);
    assert UNLISTED.todo[1..] == [];
  }

  // Two lists that overlap, and a third one of what the first left.
  ghost predicate Overlap(n: nat, all: set<int>, one: set<int>, two: set<int>, three: set<int>) {
    && one <= all && two <= all && three <= all - one
    && |one| == |two| == |three| == n > 0
    && |(all - one) * two| < n && |(all - one - two) * three| < n
  }

  // Both prunes list; the first deletes and lists again; the second finds part of its list gone, and
  // then so does the first.
  lemma OverlapEndsBoth(n: nat, all: set<int>, one: set<int>, two: set<int>, three: set<int>) returns (steps: seq<Step>)
    requires Overlap(n, all, one, two, three)
    ensures IsRun(Among(n, all, all, [UNLISTED, UNLISTED]), steps)
    ensures End(Among(n, all, all, [UNLISTED, UNLISTED]), steps) ==
            Among(n, all, all - one - two - three, [OVER, OVER])
  {
    var start := Among(n, all, all, [UNLISTED, UNLISTED]);
    var s1 := Among(n, all, all, [Listed(one), UNLISTED]);
    var s2 := Among(n, all, all, [Listed(one), Listed(two)]);
    Lists(n, all, all, [UNLISTED, UNLISTED], 0, one, [Listed(one), UNLISTED]);
    Lists(n, all, all, [Listed(one), UNLISTED], 1, two, [Listed(one), Listed(two)]);
    var rest := FirstGoesOn(n, all, one, two, three);
    Chain(s1, ListStep(1, two), s2, rest);
    Chain(start, ListStep(0, one), s1, [ListStep(1, two)] + rest);
    steps := [ListStep(0, one)] + ([ListStep(1, two)] + rest);
  }

  lemma FirstGoesOn(n: nat, all: set<int>, one: set<int>, two: set<int>, three: set<int>) returns (steps: seq<Step>)
    requires Overlap(n, all, one, two, three)
    ensures IsRun(Among(n, all, all, [Listed(one), Listed(two)]), steps)
    ensures End(Among(n, all, all, [Listed(one), Listed(two)]), steps) ==
            Among(n, all, all - one - two - three, [OVER, OVER])
  {
    var left := all - one;
    var start := Among(n, all, all, [Listed(one), Listed(two)]);
    var s1 := Among(n, all, left, [UNLISTED, Listed(two)]);
    var s2 := Among(n, all, left, [Listed(three), Listed(two)]);
    assert all * one == one;
    Deletes(n, all, all, [Listed(one), Listed(two)], 0, one, [UNLISTED, Listed(two)]);
    Lists(n, all, left, [UNLISTED, Listed(two)], 0, three, [Listed(three), Listed(two)]);
    var rest := BothEnd(n, all, left, two, three);
    Chain(s1, ListStep(0, three), s2, rest);
    Chain(start, DeleteStep(0), s1, [ListStep(0, three)] + rest);
    steps := [DeleteStep(0)] + ([ListStep(0, three)] + rest);
  }

  lemma BothEnd(n: nat, all: set<int>, left: set<int>, two: set<int>, three: set<int>) returns (steps: seq<Step>)
    requires |left * two| < n && |(left - two) * three| < n
    ensures IsRun(Among(n, all, left, [Listed(three), Listed(two)]), steps)
    ensures End(Among(n, all, left, [Listed(three), Listed(two)]), steps) ==
            Among(n, all, left - two - three, [OVER, OVER])
  {
    var start := Among(n, all, left, [Listed(three), Listed(two)]);
    var s1 := Among(n, all, left - two, [Listed(three), OVER]);
    var end := Among(n, all, left - two - three, [OVER, OVER]);
    Deletes(n, all, left, [Listed(three), Listed(two)], 1, two, [Listed(three), OVER]);
    Deletes(n, all, left - two, [Listed(three), OVER], 0, three, [OVER, OVER]);
    Chain(s1, DeleteStep(0), end, []);
    Chain(start, DeleteStep(1), s1, [DeleteStep(0)] + []);
    steps := [DeleteStep(1)] + ([DeleteStep(0)] + []);
  }

  // The runs 0..2 * n; the lists are 0.., 1.. and n.., n runs each, so run 2 * n stays.
  lemma RangesOverlap(n: nat)
    requires n >= 2
    ensures Overlap(n, Range(0, 2 * n + 1), Range(0, n), Range(1, n + 1), Range(n, 2 * n))
  {
    ListSizes(n);
    SecondFindsOne(n);
    FirstFindsFewer(n);
  }

  lemma ListSizes(n: nat)
    ensures |Range(0, n)| == |Range(1, n + 1)| == |Range(n, 2 * n)| == n
  {
    RangeSize(0, n);
    RangeSize(1, n + 1);
    RangeSize(n, 2 * n);
  }

  lemma SecondFindsOne(n: nat)
    requires n >= 2
    ensures |(Range(0, 2 * n + 1) - Range(0, n)) * Range(1, n + 1)| < n
  {
    var found := (Range(0, 2 * n + 1) - Range(0, n)) * Range(1, n + 1);
    assert forall i :: i in found ==> i in {n};
    SubsetOfEqualSize(found, {n});
  }

  lemma FirstFindsFewer(n: nat)
    requires n >= 2
    ensures |(Range(0, 2 * n + 1) - Range(0, n) - Range(1, n + 1)) * Range(n, 2 * n)| < n
  {
    var found := (Range(0, 2 * n + 1) - Range(0, n) - Range(1, n + 1)) * Range(n, 2 * n);
    RangeSize(n + 1, 2 * n);
    assert forall i :: i in found ==> i in Range(n + 1, 2 * n);
    SubsetOfEqualSize(found, Range(n + 1, 2 * n));
  }

  ghost predicate BothStopEarly(n: nat) {
    var all := Range(0, 2 * n + 1);
    var s := Among(n, all, all, [UNLISTED, UNLISTED]);
    exists steps: seq<Step> ::
      IsRun(s, steps) && End(s, steps).prunes == [OVER, OVER] && 2 * n in ExpiredRuns(End(s, steps).db, 1)
  }

  // Whatever the batch size, two prunes can both count a short batch, each because the other deleted
  // part of its list, and stop with a run expired and still there.
  lemma TwoPrunesCanLeaveExpiredRuns(n: nat)
    requires n >= 2
    ensures BothStopEarly(n)
  {
    var all, one, two, three := Range(0, 2 * n + 1), Range(0, n), Range(1, n + 1), Range(n, 2 * n);
    var left := all - one - two - three;
    assert 2 * n in left;
    RangesOverlap(n);
    var steps := OverlapEndsBoth(n, all, one, two, three);
    RunsOnlyExpired(left, 1);
    assert End(Among(n, all, all, [UNLISTED, UNLISTED]), steps).db == RunsOnly(left);
  }

  // So it happens with batches of 1000 and 2001 runs.
  lemma CodePrunesCanLeaveExpiredRuns()
    ensures BothStopEarly(BATCH_SIZE)
  {
    TwoPrunesCanLeaveExpiredRuns(BATCH_SIZE);
  }

  /*** And for raw payloads: two statements match the same batch ***/

  function RawRow(id: int): Child {
    Child(id, 0, 0, "lh", Raw("version", true, "", None))
  }

  function RawRows(ids: set<int>): set<Child> {
    set id <- ids :: RawRow(id)
  }

  // One unexpired run with raw payloads of equal age, of which `rows` are left; batches of n.
  function RawsAmong(n: nat, all: set<Child>, rows: set<Child>, prunes: seq<Prune>): Sys {
    var runs := map[0 := SameRun()];
    Sys(Tables(runs, rows), Tables(runs, all), {0}, prunes, n, false)
  }

  const UNMATCHED := Prune([RawBatches(1)], None, None, false)

  function MatchedBy(rows: set<Child>): Prune {
    Prune([RawBatches(1)], None, Some(rows), false)
  }

  lemma {:induction false} RawRowsSize(ids: set<int>)
    ensures |RawRows(ids)| == |ids|
  {
    var f := (id: int) => RawRow(id);
    ImageSize(ids, f);
    assert Image(ids, f) == RawRows(ids);
  }

  lemma Matches(n: nat, ids: set<int>, some: set<int>, prunes: seq<Prune>, who: nat, next: seq<Prune>)
    requires who < |prunes| && prunes[who] == UNMATCHED && next == prunes[who := MatchedBy(RawRows(some))]
    requires some <= ids && |some| == n
    ensures var s := RawsAmong(n, RawRows(ids), RawRows(ids), prunes);
      && Enabled(s, MatchStep(who, RawRows(some)))
      && Apply(s, MatchStep(who, RawRows(some))) == RawsAmong(n, RawRows(ids), RawRows(ids), next)
  {
    var t := RawsAmong(n, RawRows(ids), RawRows(ids), prunes).db;
    RawRowsSize(some);
    assert ExpiredRaws(t, 1) == RawRows(ids);
    SubsetOfEqualSize(RawRows(some), RawRows(ids));
    forall k <- RawRows(ids)
      ensures k.id in Ids(RawRows(some)) <==> k in RawRows(some)
    {
      if k.id in Ids(RawRows(some)) {
        var b :| b in RawRows(some) && b.id == k.id;
        assert k == RawRow(k.id) == b;
      }
    }
    assert Matched(t, RawRows(some), 1) == RawRows(some);
  }

  lemma DeletesRows(n: nat, all: set<Child>, rows: set<Child>, prunes: seq<Prune>, who: nat, batch: set<Child>,
                    next: seq<Prune>)
    requires who < |prunes| && prunes[who] == MatchedBy(batch)
    requires next == prunes[who := if |rows * batch| < n then OVER else UNMATCHED]
    ensures Enabled(RawsAmong(n, all, rows, prunes), RawStep(who))
    ensures Apply(RawsAmong(n, all, rows, prunes), RawStep(who)) == RawsAmong(n, all, rows - batch, next)
  {
    assert UNMATCHED.todo[1..] == [];
  }

  // The first statement deletes the batch; the second finds none of it, counts 0 and ends its loop,
  // with the last payload expired and still there.
  ghost predicate RawLoopEndsEarly(n: nat) {
    var all := RawRows(Range(0, n + 1));
    var s := RawsAmong(n, all, all, [UNMATCHED, UNMATCHED]);
    exists steps: seq<Step> ::
      IsRun(s, steps) && End(s, steps).prunes == [UNMATCHED, OVER] && RawRow(n) in ExpiredRaws(End(s, steps).db, 1)
  }

  lemma TwoPrunesCanLeaveExpiredRaws(n: nat)
    requires n > 0
    ensures RawLoopEndsEarly(n)
  {
    var ids, some := Range(0, n + 1), Range(0, n);
    var all, batch := RawRows(ids), RawRows(some);
    RangeSize(0, n);
    RawRowsSize(some);
    var steps := SameBatchTwice(n, ids, some);
    assert n in ids && RawRow(n) in all && RawRow(n) !in batch;
    assert End(RawsAmong(n, all, all, [UNMATCHED, UNMATCHED]), steps).db.kids == all - batch;
  }

  lemma SameBatchTwice(n: nat, ids: set<int>, some: set<int>) returns (steps: seq<Step>)
    requires some <= ids && |some| == |RawRows(some)| == n > 0
    ensures var all, batch := RawRows(ids), RawRows(some);
      var s := RawsAmong(n, all, all, [UNMATCHED, UNMATCHED]);
      IsRun(s, steps) && End(s, steps) == RawsAmong(n, all, all - batch, [UNMATCHED, OVER])
  {
    var all, batch := RawRows(ids), RawRows(some);
    var mine := MatchedBy(batch);
    var s0, s1 := RawsAmong(n, all, all, [UNMATCHED, UNMATCHED]), RawsAmong(n, all, all, [mine, UNMATCHED]);
    var s2 := RawsAmong(n, all, all, [mine, mine]);
    Matches(n, ids, some, [UNMATCHED, UNMATCHED], 0, [mine, UNMATCHED]);
    Matches(n, ids, some, [mine, UNMATCHED], 1, [mine, mine]);
    var rest := BothDelete(n, all, batch);
    Chain(s1, MatchStep(1, batch), s2, rest);
    Chain(s0, MatchStep(0, batch), s1, [MatchStep(1, batch)] + rest);
    steps := [MatchStep(0, batch)] + ([MatchStep(1, batch)] + rest);
  }

  lemma BothDelete(n: nat, all: set<Child>, batch: set<Child>) returns (steps: seq<Step>)
    requires batch <= all && |batch| == n > 0
    ensures var s := RawsAmong(n, all, all, [MatchedBy(batch), MatchedBy(batch)]);
      IsRun(s, steps) && End(s, steps) == RawsAmong(n, all, all - batch, [UNMATCHED, OVER])
  {
    var mine := MatchedBy(batch);
    var left := all - batch;
    assert all * batch == batch && left * batch == {} && left - batch == left;
    DeletesRows(n, all, all, [mine, mine], 0, batch, [UNMATCHED, mine]);
    DeletesRows(n, all, left, [UNMATCHED, mine], 1, batch, [UNMATCHED, OVER]);
    var s0, s1 := RawsAmong(n, all, all, [mine, mine]), RawsAmong(n, all, left, [UNMATCHED, mine]);
    Chain(s1, RawStep(1), RawsAmong(n, all, left, [UNMATCHED, OVER]), []);
    Chain(s0, RawStep(0), s1, [RawStep(1)] + []);
    steps := [RawStep(0)] + ([RawStep(1)] + []);
  }

  lemma CodePrunesCanLeaveExpiredRaws()
    ensures RawLoopEndsEarly(BATCH_SIZE)
  {
    TwoPrunesCanLeaveExpiredRaws(BATCH_SIZE);
  }
}
