/**
 `Collector.runRound`: one goroutine per lighthouse, a buffered channel as large as the target
 list, a wait group, and a main goroutine that closes and drains the channel.

 The steps of all goroutines interleave freely; the context may be cancelled at any moment.
 */
module PollRound {
  import opened Basics

  // Unborn until spawned, then waiting out the jitter, polling, and holding a result to send.
  datatype Worker = Unborn | Waiting | Polling | Sending | Gone(sent: bool)

  datatype Phase = Spawning | AwaitingAll | Draining | Refreshing | Finished(failed: bool)

  datatype Round = Round(
    jitter: bool,
    refreshViews: bool,
    workers: seq<Worker>,
    buffer: seq<nat>,  // the channel: indexes of the lighthouses whose results it holds
    capacity: nat,
    closed: bool,
    cancelled: bool,
    main: Phase,
    drained: seq<nat>, // what the main goroutine has received, in order
    saved: nat,
    errors: nat,
    refreshed: bool)

  datatype Step =
    | Cancel
    | Spawn(i: nat)
    | SpawnedAll
    | TimerFires(i: nat)
    | SeesCancel(i: nat)
    | PollReturns(i: nat)
    | Send(i: nat)
    | Close
    | Receive(ok: bool)    // take one result and save it, successfully or not
    | DrainedAll
    | Refresh(ok: bool)

  predicate At(s: Round, i: nat, w: Worker) {
    i < |s.workers| && s.workers[i] == w
  }

  predicate Enabled(s: Round, e: Step) {
    match e
    case Cancel => !s.cancelled
    case Spawn(i) => s.main == Spawning && At(s, i, Unborn) && forall j | 0 <= j < i :: s.workers[j] != Unborn
    case SpawnedAll => s.main == Spawning && forall j | 0 <= j < |s.workers| :: s.workers[j] != Unborn
    case TimerFires(i) => At(s, i, Waiting)
    case SeesCancel(i) => At(s, i, Waiting) && s.cancelled
    case PollReturns(i) => At(s, i, Polling)
    case Send(i) => At(s, i, Sending) && |s.buffer| < s.capacity && !s.closed
    case Close => s.main == AwaitingAll && forall j | 0 <= j < |s.workers| :: s.workers[j].Gone?
    case Receive(_) => s.main == Draining && s.buffer != []
    case DrainedAll => s.main == Draining && s.buffer == []
    case Refresh(_) => s.main == Refreshing
  }

  function Move(s: Round, i: nat, w: Worker): Round
    requires i < |s.workers|
  {
    s.(workers := s.workers[i := w])
  }

  function Apply(s: Round, e: Step): Round
    requires Enabled(s, e)
  {
    match e
    case Cancel => s.(cancelled := true)
    case Spawn(i) => Move(s, i, if s.jitter then Waiting else Polling)
    case SpawnedAll => s.(main := AwaitingAll)
    case TimerFires(i) => Move(s, i, Polling)
    case SeesCancel(i) => Move(s, i, Gone(false))
    case PollReturns(i) => Move(s, i, Sending)
    case Send(i) => Move(s, i, Gone(true)).(buffer := s.buffer + [i])
    case Close => s.(closed := true, main := Draining)
    case Receive(ok) =>
      s.(buffer := s.buffer[1..], drained := s.drained + [s.buffer[0]],
         saved := if ok then s.saved + 1 else s.saved, errors := if ok then s.errors else s.errors + 1)
    case DrainedAll =>
      s.(main := if s.saved > 0 && s.refreshViews then Refreshing else Finished(s.errors > 0))
    case Refresh(ok) => s.(refreshed := true, main := Finished(s.errors > 0 || !ok))
  }

  predicate Init(s: Round) {
    && (forall j | 0 <= j < |s.workers| :: s.workers[j] == Unborn)
    && s.buffer == [] && s.capacity == |s.workers| && !s.closed && !s.cancelled && s.main == Spawning
    && s.drained == [] && s.saved == 0 && s.errors == 0 && !s.refreshed
  }

  predicate IsRun(s: Round, steps: seq<Step>)
    decreases |steps|
  {
    steps == [] || (Enabled(s, steps[0]) && IsRun(Apply(s, steps[0]), steps[1..]))
  }

  function End(s: Round, steps: seq<Step>): Round
    requires IsRun(s, steps)
    decreases |steps|
  {
    if steps == [] then s else End(Apply(s, steps[0]), steps[1..])
  }

  /*** Invariants ***/

  predicate Distinct(q: seq<nat>) {
    forall i, j | 0 <= i < j < |q| :: q[i] != q[j]
  }

  // The results sent, received or not, are one from each worker that sent.
  ghost predicate Delivered(s: Round) {
    && Distinct(s.drained + s.buffer)
    && forall i: nat :: i in s.drained + s.buffer <==> At(s, i, Gone(true))
  }

  predicate Phases(s: Round) {
    && s.capacity == |s.workers|
    && (s.closed <==> !(s.main == Spawning || s.main == AwaitingAll))
    && (s.main != Spawning ==> forall j | 0 <= j < |s.workers| :: s.workers[j] != Unborn)
    && (s.closed ==> forall j | 0 <= j < |s.workers| :: s.workers[j].Gone?)
    && (!s.closed ==> s.drained == [])
    && (s.main == Refreshing || s.main.Finished? ==> s.buffer == [])
    && |s.drained| == s.saved + s.errors
    && (!(s.jitter && s.cancelled) ==> forall j | 0 <= j < |s.workers| :: s.workers[j] != Gone(false))
    && (!s.jitter ==> forall j | 0 <= j < |s.workers| :: s.workers[j] != Waiting)
    && (s.refreshed ==> s.main.Finished? && s.saved > 0 && s.refreshViews)
    && (s.main == Refreshing ==> s.saved > 0 && s.refreshViews)
    && (s.main.Finished? ==>
          (s.saved > 0 && s.refreshViews ==> s.refreshed) &&
          (s.errors > 0 ==> s.main.failed) && (!s.refreshed ==> (s.main.failed <==> s.errors > 0)))
  }

  ghost predicate Inv(s: Round) {
    Phases(s) && Delivered(s)
  }

  lemma StepKeepsPhases(s: Round, e: Step)
    requires Inv(s) && Enabled(s, e)
    ensures Phases(Apply(s, e))
  {
  }

  lemma SendDelivers(s: Round, i: nat)
    requires Delivered(s) && At(s, i, Sending)
    ensures Delivered(Move(s, i, Gone(true)).(buffer := s.buffer + [i]))
  {
    var q := s.drained + s.buffer;
    assert i !in q by {
      assert !At(s, i, Gone(true));
    }
    var s' := Move(s, i, Gone(true)).(buffer := s.buffer + [i]);
    assert s'.drained + s'.buffer == q + [i];
    forall j: nat
      ensures At(s', j, Gone(true)) <==> j == i || At(s, j, Gone(true))
    {
    }
    assert forall j: nat :: j in q + [i] <==> j in q || j == i;
  }

  lemma MoveDelivers(s: Round, i: nat, w: Worker)
    requires Delivered(s) && i < |s.workers| && s.workers[i] != Gone(true) && w != Gone(true)
    ensures Delivered(Move(s, i, w))
  {
    assert forall j: nat :: At(Move(s, i, w), j, Gone(true)) <==> At(s, j, Gone(true));
  }

  // Receiving moves a result along; the other steps of the main goroutine move none.
  lemma SameResults(s: Round, t: Round)
    requires Delivered(s) && t.workers == s.workers && t.drained + t.buffer == s.drained + s.buffer
    ensures Delivered(t)
  {
    assert forall j: nat :: At(t, j, Gone(true)) <==> At(s, j, Gone(true));
  }

  lemma StepKeepsDelivered(s: Round, e: Step)
    requires Inv(s) && Enabled(s, e)
    ensures Delivered(Apply(s, e))
  {
    match e
    case Spawn(i) => MoveDelivers(s, i, if s.jitter then Waiting else Polling);
    case TimerFires(i) => MoveDelivers(s, i, Polling);
    case SeesCancel(i) => MoveDelivers(s, i, Gone(false));
    case PollReturns(i) => MoveDelivers(s, i, Sending);
    case Send(i) => SendDelivers(s, i);
    case Receive(_) =>
      assert s.buffer == [s.buffer[0]] + s.buffer[1..];
      assert (s.drained + [s.buffer[0]]) + s.buffer[1..] == s.drained + s.buffer;
      SameResults(s, Apply(s, e));
    case _ => SameResults(s, Apply(s, e));
  }

  lemma {:induction false} RunKeepsInv(s: Round, steps: seq<Step>)
    requires Inv(s) && IsRun(s, steps)
    ensures Inv(End(s, steps))
    decreases |steps|
  {
    if steps == [] {
    } else {
      StepKeepsPhases(s, steps[0]);
      StepKeepsDelivered(s, steps[0]);
      RunKeepsInv(Apply(s, steps[0]), steps[1..]);
    }
  }

  /*** No send blocks, and nothing is sent after the close ***/

  function Members(q: seq<nat>): set<int> {
    set i | 0 <= i < |q| :: q[i]
  }

  lemma {:induction false} DistinctSize(q: seq<nat>)
    requires Distinct(q)
    ensures |Members(q)| == |q|
  {
    if q == [] {
    } else {
      var front := q[..|q| - 1];
      DistinctSize(front);
      assert Members(q) == Members(front) + {q[|q| - 1]};
    }
  }

  lemma SendNeverBlocks(s: Round, steps: seq<Step>, i: nat)
    requires Init(s) && IsRun(s, steps) && At(End(s, steps), i, Sending)
    ensures var t := End(s, steps);
      Enabled(t, Send(i)) && !t.closed && |t.buffer| < t.capacity == |t.workers|
  {
    InitIsInv(s);
    RunKeepsInv(s, steps);
    var t := End(s, steps);
    var q := t.drained + t.buffer;
    DistinctSize(q);
    var others := Range(0, |t.workers|) - {i};
    RangeSize(0, |t.workers|);
    forall x <- Members(q)
      ensures x in others
    {
      assert x in q;
      assert At(t, x, Gone(true));
    }
    SubsetOfEqualSize(Members(q), others);
  }

  lemma InitIsInv(s: Round)
    requires Init(s)
    ensures Inv(s)
  {
  }

  /*** Every round ends ***/

  function Weight(w: Worker): nat {
    match w
    case Unborn => 4
    case Waiting => 3
    case Polling => 2
    case Sending => 1
    case Gone(_) => 0
  }

  function Work(ws: seq<Worker>): nat {
    if ws == [] then 0 else Weight(ws[0]) + Work(ws[1..])
  }

  function Remaining(s: Round): nat {
    2 * Work(s.workers) + |s.buffer| + (if s.cancelled then 0 else 1) +
    match s.main
    case Spawning => 4
    case AwaitingAll => 3
    case Draining => 2
    case Refreshing => 1
    case Finished(_) => 0
  }

  lemma {:induction false} WorkUpdate(ws: seq<Worker>, i: nat, w: Worker)
    requires i < |ws|
    ensures Work(ws[i := w]) == Work(ws) - Weight(ws[i]) + Weight(w)
  {
    if i == 0 {
      assert ws[i := w][1..] == ws[1..];
    } else {
      assert ws[i := w][1..] == ws[1..][i - 1 := w];
      WorkUpdate(ws[1..], i - 1, w);
    }
  }

  lemma MoveDecreases(s: Round, i: nat, w: Worker)
    requires i < |s.workers| && Weight(w) < Weight(s.workers[i])
    ensures Work(Move(s, i, w).workers) < Work(s.workers)
  {
    WorkUpdate(s.workers, i, w);
  }

  lemma MainStepDecreases(s: Round, e: Step)
    requires Enabled(s, e)
    requires e.Cancel? || e.SpawnedAll? || e.Close? || e.Receive? || e.DrainedAll? || e.Refresh?
    ensures Remaining(Apply(s, e)) < Remaining(s)
  {
    assert Apply(s, e).workers == s.workers;
  }

  lemma MoveStepDecreases(s: Round, e: Step)
    requires Enabled(s, e)
    requires e.Spawn? || e.TimerFires? || e.SeesCancel? || e.PollReturns?
    ensures Remaining(Apply(s, e)) < Remaining(s)
  {
    var w := if e.Spawn? then if s.jitter then Waiting else Polling
             else if e.TimerFires? then Polling else if e.SeesCancel? then Gone(false) else Sending;
    MoveDecreases(s, e.i, w);
    assert Apply(s, e) == Move(s, e.i, w);
  }

  lemma SendDecreases(s: Round, e: Step)
    requires Enabled(s, e) && e.Send?
    ensures Remaining(Apply(s, e)) < Remaining(s)
  {
    MoveDecreases(s, e.i, Gone(true));
  }

  lemma StepDecreases(s: Round, e: Step)
    requires Enabled(s, e)
    ensures Remaining(Apply(s, e)) < Remaining(s)
  {
    if e.Send? {
      SendDecreases(s, e);
    } else if e.Spawn? || e.TimerFires? || e.SeesCancel? || e.PollReturns? {
      MoveStepDecreases(s, e);
    } else {
      MainStepDecreases(s, e);
    }
  }

  lemma {:induction false} RunsAreBounded(s: Round, steps: seq<Step>)
    requires IsRun(s, steps)
    ensures |steps| <= Remaining(s)
    decreases |steps|
  {
    if steps == [] {
    } else {
      StepDecreases(s, steps[0]);
      RunsAreBounded(Apply(s, steps[0]), steps[1..]);
    }
  }

  lemma {:induction false} FirstUnborn(ws: seq<Worker>, j: nat) returns (i: nat)
    requires j < |ws| && ws[j] == Unborn
    ensures i <= j && ws[i] == Unborn && forall k | 0 <= k < i :: ws[k] != Unborn
  {
    if k :| 0 <= k < j && ws[k] == Unborn {
      i := FirstUnborn(ws, k);
    } else {
      i := j;
    }
  }

  // Until the round has finished some goroutine can take a step, given that every poll returns.
  lemma NeverStuck(s: Round, steps: seq<Step>) returns (e: Step)
    requires Init(s) && IsRun(s, steps) && !End(s, steps).main.Finished?
    ensures e != Cancel && Enabled(End(s, steps), e)
  {
    InitIsInv(s);
    RunKeepsInv(s, steps);
    var t := End(s, steps);
    if j: nat :| j < |t.workers| && t.workers[j] == Unborn {
      var i := FirstUnborn(t.workers, j);
      e := Spawn(i);
    } else if t.main == Spawning {
      e := SpawnedAll;
    } else if j: nat :| j < |t.workers| && !t.workers[j].Gone? {
      if t.workers[j] == Sending {
        SendNeverBlocks(s, steps, j);
        e := Send(j);
      } else {
        e := if t.workers[j] == Waiting then TimerFires(j) else PollReturns(j);
      }
    } else if t.main == AwaitingAll {
      e := Close;
    } else if t.main == Draining {
      e := if t.buffer != [] then Receive(true) else DrainedAll;
    } else {
      e := Refresh(true);
    }
  }

  /*** What a finished round has done ***/

  lemma DistinctCover(q: seq<nat>, n: nat)
    requires Distinct(q) && forall i: nat :: i in q <==> i < n
    ensures |q| == n
  {
    DistinctSize(q);
    RangeSize(0, n);
    forall i
      ensures i in Members(q) <==> i in Range(0, n)
    {
      if i in Members(q) {
        var j :| 0 <= j < |q| && q[j] == i;
        assert q[j] in q;
      }
      if 0 <= i < n {
        var x: nat := i;
        assert x in q;
        var j :| 0 <= j < |q| && q[j] == i;
      }
    }
    assert Members(q) == Range(0, n);
  }

  lemma FinishedIsDelivered(t: Round)
    requires Inv(t) && t.main.Finished?
    ensures Distinct(t.drained)
    ensures forall i: nat :: i in t.drained <==> At(t, i, Gone(true))
    ensures !(t.jitter && t.cancelled) ==> |t.drained| == |t.workers|
  {
    assert t.drained + t.buffer == t.drained;
    if !(t.jitter && t.cancelled) {
      forall i: nat
        ensures i in t.drained <==> i < |t.workers|
      {
        assert i < |t.workers| ==> At(t, i, Gone(true));
      }
      DistinctCover(t.drained, |t.workers|);
    }
  }

  // A finished round takes no step but a cancellation, which changes no outcome.
  lemma {:induction false} FinishedStays(s: Round, steps: seq<Step>)
    requires Inv(s) && IsRun(s, steps) && s.main.Finished?
    ensures End(s, steps).main == s.main && End(s, steps).errors == s.errors
    ensures forall ok :: Refresh(ok) !in steps
    decreases |steps|
  {
    if steps == [] {
    } else {
      StepKeepsPhases(s, steps[0]);
      StepKeepsDelivered(s, steps[0]);
      FinishedStays(Apply(s, steps[0]), steps[1..]);
    }
  }

  lemma {:induction false} FailedIff(s: Round, steps: seq<Step>)
    requires Inv(s) && IsRun(s, steps) && !s.main.Finished? && End(s, steps).main.Finished?
    ensures End(s, steps).main.failed <==> End(s, steps).errors > 0 || Refresh(false) in steps
    decreases |steps|
  {
    var e := steps[0];
    var next := Apply(s, e);
    StepKeepsPhases(s, e);
    StepKeepsDelivered(s, e);
    assert steps == [e] + steps[1..];
    if next.main.Finished? {
      FinishedStays(next, steps[1..]);
    } else {
      FailedIff(next, steps[1..]);
    }
  }

  /*** What the outcomes of the steps add up to ***/

  function Times(steps: seq<Step>, e: Step): nat {
    if steps == [] then 0 else (if steps[0] == e then 1 else 0) + Times(steps[1..], e)
  }

  lemma {:induction false} TimesIsMember(steps: seq<Step>, e: Step)
    ensures Times(steps, e) > 0 <==> e in steps
  {
    if steps == [] {
    } else {
      TimesIsMember(steps[1..], e);
      assert steps == [steps[0]] + steps[1..];
    }
  }

  function Sent(steps: seq<Step>): seq<nat> {
    if steps == [] then [] else (if steps[0].Send? then [steps[0].i] else []) + Sent(steps[1..])
  }

  // Results are counted by how their saves went.
  lemma {:induction false} OutcomesAddUp(s: Round, steps: seq<Step>)
    requires IsRun(s, steps)
    ensures End(s, steps).saved == s.saved + Times(steps, Receive(true))
    ensures End(s, steps).errors == s.errors + Times(steps, Receive(false))
    decreases |steps|
  {
    if steps == [] {
    } else {
      OutcomeOfStep(s, steps[0]);
      OutcomesAddUp(Apply(s, steps[0]), steps[1..]);
    }
  }

  lemma OutcomeOfStep(s: Round, e: Step)
    requires Enabled(s, e)
    ensures Apply(s, e).saved == s.saved + (if e == Receive(true) then 1 else 0)
    ensures Apply(s, e).errors == s.errors + (if e == Receive(false) then 1 else 0)
  {
    match e
    case Receive(ok) =>
    case Send(i) =>
    case _ => assert Apply(s, e).saved == s.saved && Apply(s, e).errors == s.errors;
  }

  // Results are received in the order in which they were sent.
  lemma {:induction false} ReceivedInOrder(s: Round, steps: seq<Step>)
    requires IsRun(s, steps)
    ensures End(s, steps).drained + End(s, steps).buffer == s.drained + s.buffer + Sent(steps)
    decreases |steps|
  {
    if steps == [] {
    } else {
      var e, rest := steps[0], steps[1..];
      OneSent(s, e);
      ReceivedInOrder(Apply(s, e), rest);
      SeqAssoc(s.drained + s.buffer, if e.Send? then [e.i] else [], Sent(rest));
    }
  }

  lemma SeqAssoc(a: seq<nat>, b: seq<nat>, c: seq<nat>)
    ensures (a + b) + c == a + (b + c)
  {
  }

  lemma FlagsOfStep(s: Round, e: Step)
    requires Enabled(s, e)
    ensures Apply(s, e).refreshed <==> s.refreshed || e.Refresh?
    ensures Apply(s, e).refreshViews == s.refreshViews && Apply(s, e).jitter == s.jitter
    ensures Apply(s, e).cancelled <==> s.cancelled || e.Cancel?
  {
  }

  lemma {:induction false} FlagsFollowSteps(s: Round, steps: seq<Step>)
    requires IsRun(s, steps)
    ensures End(s, steps).refreshed <==> s.refreshed || exists e <- steps :: e.Refresh?
    ensures End(s, steps).refreshViews == s.refreshViews && End(s, steps).jitter == s.jitter
    ensures End(s, steps).cancelled <==> s.cancelled || Cancel in steps
    decreases |steps|
  {
    if steps == [] {
    } else {
      var e, rest := steps[0], steps[1..];
      FlagsOfStep(s, e);
      FlagsFollowSteps(Apply(s, e), rest);
      assert steps == [e] + rest;
    }
  }

  lemma OneSent(s: Round, e: Step)
    requires Enabled(s, e)
    ensures Apply(s, e).drained + Apply(s, e).buffer == s.drained + s.buffer + (if e.Send? then [e.i] else [])
  {
    if e.Receive? {
      assert s.buffer == [s.buffer[0]] + s.buffer[1..];
    }
  }

  // Each target yields at most one result, exactly one unless a cancellation cut its jitter short;
  // results are received in the order they were sent, and each is saved or counted as an error by how
  // its save went; the views are refreshed iff that is on and a save succeeded; and the round fails iff
  // a save or the refresh did.
  lemma FinishedRound(s: Round, steps: seq<Step>)
    requires Init(s) && IsRun(s, steps) && End(s, steps).main.Finished?
    ensures var t := End(s, steps);
      && Distinct(t.drained) && t.drained == Sent(steps) && (forall i: nat :: i in t.drained <==> At(t, i, Gone(true)))
      && t.saved == Times(steps, Receive(true)) && t.errors == Times(steps, Receive(false))
      && t.saved + t.errors == |t.drained| && t.buffer == []
      && (!(s.jitter && Cancel in steps) ==> |t.drained| == |t.workers|)
      && ((exists e <- steps :: e.Refresh?) <==> s.refreshViews && Receive(true) in steps)
      && (t.main.failed <==> Receive(false) in steps || Refresh(false) in steps)
  {
    InitIsInv(s);
    RunKeepsInv(s, steps);
    FinishedIsDelivered(End(s, steps));
    FailedIff(s, steps);
    OutcomesAddUp(s, steps);
    ReceivedInOrder(s, steps);
    FlagsFollowSteps(s, steps);
    TimesIsMember(steps, Receive(true));
    TimesIsMember(steps, Receive(false));
    assert End(s, steps).drained + [] == End(s, steps).drained;
  }
}
