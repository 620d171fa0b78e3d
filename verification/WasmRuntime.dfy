/**
  The task scheduler of the Wasm runtime. Wakes may arrive at any time, also
  while the pipeline is being polled; every critical section under the
  scheduling mutex is one atomic step, and so are the beginning and the end of
  a poll.
*/
module WasmRuntime {
  import opened Basics

  datatype Sched = Sched(running: bool, pending: bool, completed: bool, canceled: bool)

  datatype PollResult = PolledOk | PolledErr | PolledPending

  /** Where a spawned run loop is. */
  datatype Loop = AboutToPoll | Polling | Polled(completed: bool)

  /** The scheduling flags, the run loops that were spawned and have not ended,
      and a record of what happened: whether a poll returned Ok, whether a wake
      arrived since the last poll began, how many wakes and polls there were. */
  datatype Task = Task(sched: Sched, loops: seq<Loop>, finished: bool, wokenSincePoll: bool, wakes: nat, polls: nat)

  const INIT: Task := Task(Sched(false, false, false, false), [], false, false, 0, 0)

  datatype Step = Wake | BeginPoll(i: nat) | EndPoll(j: nat, result: PollResult) | Settle(k: nat)

  /** The critical section of `schedule`; the flag says whether to spawn a loop. */
  function OnWake(s: Sched): (r: (Sched, bool)) {
    if s.completed || s.canceled then (s, false)
    else if s.running then (s.(pending := true), false)
    else (s.(running := true), true)
  }

  /** The critical section after a poll; the flag says whether to loop. */
  function OnPolled(s: Sched, completed: bool): (r: (Sched, bool)) {
    var s' := s.(completed := completed);
    if s.pending then (s'.(pending := false), !completed)
    else (s'.(running := false), false)
  }

  predicate Enabled(t: Task, step: Step) {
    match step
    case Wake => true
    case BeginPoll(i) => i < |t.loops| && t.loops[i] == AboutToPoll && Polling !in t.loops
    case EndPoll(i, _) => i < |t.loops| && t.loops[i] == Polling
    case Settle(i) => i < |t.loops| && t.loops[i].Polled?
  }

  function Next(t: Task, step: Step): (t': Task)
    requires Enabled(t, step)
  {
    match step
    case Wake =>
      var (s, spawn) := OnWake(t.sched);
      t.(sched := s, loops := if spawn then t.loops + [AboutToPoll] else t.loops,
         wokenSincePoll := true, wakes := t.wakes + 1)
    case BeginPoll(i) =>
      t.(loops := t.loops[i := Polling], wokenSincePoll := false, polls := t.polls + 1)
    case EndPoll(i, result) =>
      t.(loops := t.loops[i := Polled(result == PolledOk)], finished := t.finished || result == PolledOk)
    case Settle(i) =>
      var (s, again) := OnPolled(t.sched, t.loops[i].completed);
      t.(sched := s, loops := if again then t.loops[i := AboutToPoll] else t.loops[..i] + t.loops[i + 1..])
  }

  /** Where a run of steps from the initial state ends, if every step was enabled. */
  function Run(steps: seq<Step>): (r: Option<Task>) {
    if steps == [] then Some(INIT)
    else
      var before := Run(steps[..|steps| - 1]);
      var last := steps[|steps| - 1];
      if before.Some? && Enabled(before.value, last) then Some(Next(before.value, last)) else None
  }

  ghost predicate Leads(steps: seq<Step>, t: Task) {
    Run(steps) == Some(t)
  }

  ghost predicate Invariant(t: Task) {
    && |t.loops| <= 1
    && !t.sched.canceled
    && (t.loops != [] ==> t.sched.running && !t.sched.completed)
    && (t.loops == [] ==> !t.sched.pending && (t.sched.running ==> t.sched.completed))
    && (t.sched.completed ==> t.finished)
    && (t.finished ==> t.sched.completed || t.loops == [Polled(true)])
    && (t.loops == [Polled(true)] ==> t.finished)
    && (t.wokenSincePoll ==> t.sched.pending || t.loops == [AboutToPoll] || t.finished)
    && t.polls + (if t.sched.pending then 1 else 0) + (if t.loops == [AboutToPoll] then 1 else 0) <= t.wakes
  }

  lemma StepKeepsInvariant(t: Task, step: Step)
    requires Invariant(t) && Enabled(t, step)
    ensures Invariant(Next(t, step))
  {
    match step
    case Wake =>
      if OnWake(t.sched).1 {
        assert t.loops == [];
      }
    case BeginPoll(i) => assert t.loops == [AboutToPoll];
    case EndPoll(i, result) => assert t.loops == [Polling];
    case Settle(i) =>
      assert t.loops == [t.loops[0]];
      assert t.loops[..0] + t.loops[1..] == [];
  }

  lemma {:induction false} RunsKeepInvariant(steps: seq<Step>, t: Task)
    requires Leads(steps, t)
    ensures Invariant(t)
  {
    if steps != [] {
      var u := Run(steps[..|steps| - 1]).value;
      RunsKeepInvariant(steps[..|steps| - 1], u);
      StepKeepsInvariant(u, steps[|steps| - 1]);
    }
  }

  /** At every moment of every run at most one run loop is active. */
  lemma OneRunLoop(steps: seq<Step>, t: Task)
    requires Leads(steps, t)
    ensures |t.loops| <= 1
  {
    RunsKeepInvariant(steps, t);
  }

  /** After a poll returned Ok no poll can begin, now or ever after. */
  lemma NoPollAfterOk(steps: seq<Step>, t: Task, i: nat)
    requires Leads(steps, t) && t.finished
    ensures !Enabled(t, BeginPoll(i))
    ensures forall step :: Enabled(t, step) ==> Next(t, step).finished
  {
    RunsKeepInvariant(steps, t);
  }

  /** No wakeup is lost: a wake since the last poll began is remembered, or the
      loop is about to poll, or the pipeline is done. */
  lemma NoLostWakeup(steps: seq<Step>, t: Task)
    requires Leads(steps, t) && t.wokenSincePoll
    ensures t.sched.pending || t.loops == [AboutToPoll] || t.finished
    ensures t.loops == [] ==> t.sched.completed
  {
    RunsKeepInvariant(steps, t);
  }

  /** A remembered wake is acted on: the next settling step polls again. */
  lemma PendingMeansRepoll(t: Task, i: nat)
    requires Invariant(t) && Enabled(t, Settle(i)) && t.sched.pending && !t.finished
    ensures Next(t, Settle(i)).loops == [AboutToPoll] && !Next(t, Settle(i)).sched.pending
  {
    assert t.loops == [t.loops[0]];
  }

  /** Every poll is paid for by a wake, so a task that is not woken rests. */
  lemma PollsNeedWakes(steps: seq<Step>, t: Task)
    requires Leads(steps, t)
    ensures t.polls <= t.wakes
    ensures t.polls == t.wakes ==> !t.sched.pending && t.loops != [AboutToPoll]
  {
    RunsKeepInvariant(steps, t);
  }

  /** Some steps that serve the latest wake: end the poll, settle, poll again. */
  function Serve(t: Task): (steps: seq<Step>) {
    if t.loops == [Polling] then [EndPoll(0, PolledPending), Settle(0)]
    else if t.loops != [] && t.loops[0].Polled? then [Settle(0)]
    else []
  }

  ghost predicate CanPollAfter(t: Task, steps: seq<Step>)
    decreases |steps|
  {
    if steps == [] then Enabled(t, BeginPoll(0))
    else Enabled(t, steps[0]) && CanPollAfter(Next(t, steps[0]), steps[1..])
  }

  /** From wherever a run is, a woken unfinished task reaches another poll by
      its own steps as long as its pending polls do not complete it. */
  lemma WakeLeadsToPoll(steps: seq<Step>, t: Task)
    requires Leads(steps, t) && t.wokenSincePoll && !t.finished
    ensures CanPollAfter(t, Serve(t))
  {
    RunsKeepInvariant(steps, t);
    if t.loops == [Polling] {
      var u := Next(t, EndPoll(0, PolledPending));
      assert u.loops == [Polled(false)];
      assert Next(u, Settle(0)).loops == [AboutToPoll];
      assert Serve(t)[1..] == [Settle(0)] && [Settle(0)][1..] == [];
      assert CanPollAfter(Next(u, Settle(0)), []);
      assert CanPollAfter(u, [Settle(0)]);
    } else if t.loops[0].Polled? {
      assert t.loops == [Polled(false)];
      assert Next(t, Settle(0)).loops == [AboutToPoll];
      assert Serve(t)[1..] == [];
      assert CanPollAfter(Next(t, Settle(0)), []);
    }
  }

  // ---- Polling again after an error ----

  /** A wake came since the run loop was started or last went on; the wake that
      starts the loop is not one. */
  ghost predicate WokenInLoop(steps: seq<Step>) {
    steps != [] &&
    var before, last := steps[..|steps| - 1], steps[|steps| - 1];
    match last
    case Wake => Run(before).Some? && Run(before).value.loops != []
    case Settle(_) => false
    case _ => WokenInLoop(before)
  }

  /** Such a wake is what the pending flag of an active loop stands for. */
  lemma {:induction false} PendingIffWoken(steps: seq<Step>, t: Task)
    requires Leads(steps, t) && t.loops != []
    ensures t.sched.pending <==> WokenInLoop(steps)
  {
    var before, last := steps[..|steps| - 1], steps[|steps| - 1];
    var u := Run(before).value;
    RunsKeepInvariant(before, u);
    if !last.Wake? && !last.Settle? {
      PendingIffWoken(before, u);
    }
  }

  ghost predicate NoPollIn(steps: seq<Step>) {
    forall i :: 0 <= i < |steps| ==> !steps[i].BeginPoll?
  }

  /** Behind a failed poll, before another one begins: the loop has not settled yet,
      and will go on exactly if there was a wake; or it rests, and there was none; or
      there was one and it is about to poll. */
  ghost predicate AfterError(t: Task, woken: bool) {
    && !t.finished && !t.sched.completed && !t.sched.canceled
    && ((t.loops == [Polled(false)] && t.sched.running && (t.sched.pending <==> woken))
        || (t.loops == [] && !t.sched.running && !t.sched.pending && !woken)
        || (t.loops == [AboutToPoll] && t.sched.running && woken))
  }

  lemma AfterErrorStep(t: Task, woken: bool, step: Step)
    requires AfterError(t, woken) && Enabled(t, step) && !step.BeginPoll?
    ensures AfterError(Next(t, step), woken || step == Wake)
  {
    if step.Settle? {
      assert t.loops == [Polled(false)];
      assert t.loops[..0] + t.loops[1..] == [];
    }
  }

  lemma AfterErrorStart(steps: seq<Step>, u: Task)
    requires steps != [] && steps[|steps| - 1].EndPoll? && steps[|steps| - 1].result == PolledErr && Leads(steps, u)
    ensures AfterError(u, WokenInLoop(steps))
  {
    var before := Run(steps[..|steps| - 1]).value;
    RunsKeepInvariant(steps[..|steps| - 1], before);
    RunsKeepInvariant(steps, u);
    assert before.loops == [Polling] && u.loops == [Polled(false)];
    PendingIffWoken(steps, u);
  }

  lemma RunSnoc(steps: seq<Step>, last: Step, u: Task)
    requires Leads(steps + [last], u)
    ensures Run(steps).Some? && Enabled(Run(steps).value, last) && u == Next(Run(steps).value, last)
  {
    assert (steps + [last])[..|steps|] == steps;
  }

  lemma {:induction false} AfterErrorRun(steps: seq<Step>, more: seq<Step>, u: Task)
    requires steps != [] && steps[|steps| - 1].EndPoll? && steps[|steps| - 1].result == PolledErr
    requires Leads(steps + more, u) && NoPollIn(more)
    ensures AfterError(u, WokenInLoop(steps) || Wake in more)
    decreases |more|
  {
    if more == [] {
      assert steps + more == steps;
      AfterErrorStart(steps, u);
    } else {
      var init, last := more[..|more| - 1], more[|more| - 1];
      assert more == init + [last] && steps + more == (steps + init) + [last];
      RunSnoc(steps + init, last, u);
      AfterErrorRun(steps, init, Run(steps + init).value);
      AfterErrorStep(Run(steps + init).value, WokenInLoop(steps) || Wake in init, last);
    }
  }

  /** An error is not completion. However a run goes on behind a poll that failed,
      as long as no other poll has begun: the task can get to one by its own steps
      exactly if a wake came since its loop started or last went on. Without one it
      settles to rest, and then only a wake is possible. */
  lemma RepollAfterErrorIffWoken(steps: seq<Step>, more: seq<Step>, u: Task)
    requires steps != [] && steps[|steps| - 1].EndPoll? && steps[|steps| - 1].result == PolledErr
    requires Leads(steps + more, u) && NoPollIn(more)
    ensures CanPollAfter(u, Serve(u)) <==> WokenInLoop(steps) || Wake in more
    ensures u.loops == [] ==> forall step :: Enabled(u, step) ==> step == Wake
    ensures !WokenInLoop(steps) && Wake !in more ==> forall i :: !Enabled(u, BeginPoll(i))
  {
    AfterErrorRun(steps, more, u);
    if u.loops == [Polled(false)] {
      assert Serve(u) == [Settle(0)] && [Settle(0)][1..] == [];
      assert u.loops[..0] + u.loops[1..] == [];
      assert CanPollAfter(u, Serve(u)) <==> CanPollAfter(Next(u, Settle(0)), []);
    }
  }

  /** The next poll behind a failed one needs such a wake. */
  lemma RepollNeedsWake(steps: seq<Step>, more: seq<Step>, i: nat, u: Task)
    requires steps != [] && steps[|steps| - 1].EndPoll? && steps[|steps| - 1].result == PolledErr
    requires NoPollIn(more) && Leads(steps + more + [BeginPoll(i)], u)
    ensures WokenInLoop(steps) || Wake in more
  {
    var all := steps + more + [BeginPoll(i)];
    assert all[..|all| - 1] == steps + more;
    RepollAfterErrorIffWoken(steps, more, Run(steps + more).value);
  }

  /** Two wakes, a poll that fails, and the loop polls again. */
  lemma PolledAgainAfterError()
    ensures var steps := [Wake, Wake, BeginPoll(0), EndPoll(0, PolledErr), Settle(0)];
            Run(steps).Some? && Run(steps).value.loops == [AboutToPoll] && !Run(steps).value.wokenSincePoll
  {
    var steps := [Wake, Wake, BeginPoll(0), EndPoll(0, PolledErr), Settle(0)];
    assert steps[..4][..3] == steps[..3] && steps[..3][..2] == steps[..2] && steps[..2][..1] == steps[..1] && steps[..1][..0] == [];
    var t1 := Next(INIT, Wake);
    assert Run(steps[..1]) == Some(t1) && t1.loops == [AboutToPoll];
    assert Run(steps[..2]) == Some(Next(t1, Wake));
    var t3 := Next(Next(t1, Wake), BeginPoll(0));
    assert Run(steps[..3]) == Some(t3) && t3.loops == [Polling];
    var t4 := Next(t3, EndPoll(0, PolledErr));
    assert Run(steps[..4]) == Some(t4) && t4.loops == [Polled(false)];
  }

  // ---- The critical sections as the source writes them ----

  class WasmTaskState {
    var running: bool
    var pending: bool
    var completed: bool
    var canceled: bool

    constructor ()
      ensures State() == INIT.sched
    {
      running, pending, completed, canceled := false, false, false, false;
    }

    function State(): (s: Sched)
      reads this
    {
      Sched(running, pending, completed, canceled)
    }

    /** `schedule` up to the point where it releases the mutex. */
    method Schedule() returns (spawn: bool, error: bool)
      modifies this
      ensures (State(), spawn) == OnWake(old(State()))
      ensures error <==> old(canceled) && !old(completed)
    {
      spawn, error := false, false;
      if completed {
        return;
      }
      if canceled {
        error := true;
        return;
      }
      if running {
        pending := true;
      } else {
        running, spawn := true, true;
      }
    }

    /** The run loop from taking the mutex to its next turn or its end. */
    method AfterExecute(done: bool) returns (again: bool)
      modifies this
      ensures (State(), again) == OnPolled(old(State()), done)
    {
      completed := done;
      if pending {
        pending := false;
        again := !done;
      } else {
        running := false;
        again := false;
      }
    }
  }
}
