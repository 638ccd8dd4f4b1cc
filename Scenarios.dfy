/** Concrete runs of the runner. */
module Scenarios {
  import opened Frames
  import opened Stepping
  import opened Coroutines

  /**
    A routine that yields one generic value and then ends, started at frame 0:
    it is running after the start, and the runner's step at frame 1 finishes
    it and removes it from the live list.
  */
  method OneYieldThenFinish() returns (runningAfterStart: bool, runningAfterTick: bool, removed: bool)
    ensures runningAfterStart && !runningAfterTick && removed
  {
    var runner := new Runner();
    ghost var U: set<Coroutine> := {};
    var routine: Frame<Coroutine> := Frame(Routine([Other]), 0);
    assert Events([routine]) == [Other];
    var sc := runner.StartCoroutine(routine, 0, U, 0);
    U := U + {sc};
    assert runner.running == [sc];
    runningAfterStart := sc.IsRunning(0, U);
    ghost var started := TaskState([Frame(Routine([Other]), 1)], None, 1);
    assert sc.State() == started by {
      assert Started(routine).stack[..0] == [];
    }
    ghost var before, after, results, waits := runner.Update(1, U);
    assert before[0] == started && Events(started.stack) == [];
    StepConsumesOneEvent(started, 1, waits[0]);
    assert after[0] == TaskState([], None, 1) && !results[0];
    runningAfterTick := sc.IsRunning(1, U);
    removed := sc !in runner.running;
  }
}
