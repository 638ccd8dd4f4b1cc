/**
  One step of a coroutine, as a function of its state.

  `Step` is the specification of `SCoroutine.Update`: it takes the three
  fields of a coroutine (frame stack, awaited coroutine, wake frame), the
  current frame count and whether the awaited coroutine reports itself
  running, and returns `Update`'s result together with the new fields. It is
  recursive exactly where `Update` calls itself: after pushing a nested frame
  and after popping an exhausted one.

  The lemmas below say what one step does in terms of the suspension points
  (`Frames.Events`) still ahead of the stack: it consumes exactly the first
  one, or, when there is none left, it empties the stack and reports that the
  coroutine has finished.
*/
module Stepping {
  import opened Frames

  datatype Option<T> = None | Some(value: T)

  /** The fields of a coroutine: the frame stack (top last), the awaited coroutine and the wake frame. */
  datatype TaskState<T> = TaskState(stack: seq<Frame<T>>, nested: Option<T>, yieldFrame: int)

  /** What one `Update` returns, and the fields it leaves behind. */
  datatype Outcome<T> = Outcome(running: bool, state: TaskState<T>)

  /**
    The state `Start` installs before it steps: the routine alone on the
    stack, no wait of either kind. Its pending suspension points and its work
    are exactly the routine's.
  */
  function Started<T>(routine: Frame<T>): (s: TaskState<T>)
    ensures Events(s.stack) == FrameEvents(routine) && StackSize(s.stack) == FrameSize(routine)
    ensures forall frameCount | frameCount >= -1 :: Ready(s, frameCount, true)
  {
    TaskState([routine], None, -1)
  }

  /**
    `IsRunning` given the fields and whether the awaited coroutine is itself running:
    a wake frame still ahead, frames left, or an awaited coroutine still running.
  */
  predicate Running<T>(s: TaskState<T>, frameCount: int, nestedRunning: bool): (b: bool)
    ensures !b ==> Ready(s, frameCount, nestedRunning) && Events(s.stack) == []
  {
    s.yieldFrame > frameCount || s.stack != [] || (s.nested.Some? && nestedRunning)
  }

  /**
    An empty stack goes with no awaited coroutine. Every state `Start` and
    `Update` leave is settled; in such a state `IsRunning` never consults the
    awaited coroutine.
  */
  predicate Settled<T>(s: TaskState<T>)
  {
    s.stack == [] ==> s.nested == None
  }

  /**
    One call of `Update` at `frameCount`; `nestedRunning` is what the awaited
    coroutine's `IsRunning` answers (it is only consulted when one is awaited).
  */
  function Step<T>(s: TaskState<T>, frameCount: int, nestedRunning: bool): (o: Outcome<T>)
    ensures Settled(s) ==> Settled(o.state)
    decreases StackSize(s.stack)
  {
    if s.yieldFrame > frameCount then Outcome(true, s)
    else if s.nested.Some? && nestedRunning then Outcome(true, s)
    else
      var s := s.(nested := None);
      if s.stack == [] then Outcome(false, s)
      else
        var below, top := s.stack[..|s.stack| - 1], s.stack[|s.stack| - 1];
        assert s.stack == below + [top];
        match MoveNext(top)
        case Yielded(Nested(g), next) =>
          PushNested(below, top, g, next);
          Step(s.(stack := below + [next, g]), frameCount, nestedRunning)
        case Yielded(Await(t), next) =>
          Outcome(true, s.(stack := below + [next], nested := Some(t)))
        case Yielded(Other, next) =>
          Outcome(true, s.(stack := below + [next], yieldFrame := frameCount + 1))
        case Finished =>
          PopFinished(below, top);
          Step(s.(stack := below), frameCount, nestedRunning)
  }

  /** Neither wait applies: the wake frame has been reached and no awaited coroutine is running. */
  predicate Ready<T>(s: TaskState<T>, frameCount: int, nestedRunning: bool)
  {
    s.yieldFrame <= frameCount && !(s.nested.Some? && nestedRunning)
  }

  /**
    Waiting on a coroutine costs no frame of its own: while the awaited
    coroutine runs, a step changes nothing, and once it has finished the step
    proceeds in the same call exactly as if nothing had been awaited.
  */
  lemma AwaitCostsNoExtraFrame<T>(s: TaskState<T>, frameCount: int)
    requires s.yieldFrame <= frameCount && s.nested.Some?
    ensures Step(s, frameCount, true) == Outcome(true, s)
    ensures Step(s, frameCount, false) == Step(s.(nested := None), frameCount, false)
  {
  }

  /**
    The central property of `Update`. Once neither wait applies, one step
    consumes exactly the first suspension point ahead of the stack: nested
    frames are entered and exhausted frames left within the same call, at no
    frame cost. If the point is a coroutine, it becomes the awaited one; if it
    is any other value, the wake frame becomes the next frame. Either way the
    step reports the coroutine running and leaves frames on the stack. If no
    suspension point is left, the stack drains to empty, the await is cleared
    and the step reports the coroutine finished.
  */
  lemma {:induction false} StepConsumesOneEvent<T>(s: TaskState<T>, frameCount: int, nestedRunning: bool)
    requires Ready(s, frameCount, nestedRunning)
    ensures var o := Step(s, frameCount, nestedRunning);
      if Events(s.stack) == [] then
        o == Outcome(false, TaskState([], None, s.yieldFrame))
      else
        && o.running
        && o.state.stack != []
        && Events(o.state.stack) == Events(s.stack)[1..]
        && (Events(s.stack)[0].Await? ==>
              o.state.nested == Some(Events(s.stack)[0].task) && o.state.yieldFrame == s.yieldFrame)
        && (Events(s.stack)[0].Other? ==>
              o.state.nested == None && o.state.yieldFrame == frameCount + 1)
    decreases StackSize(s.stack)
  {
    var c := s.(nested := None);
    if s.stack != [] {
      var below, top := s.stack[..|s.stack| - 1], s.stack[|s.stack| - 1];
      assert s.stack == below + [top];
      match MoveNext(top)
      case Yielded(Nested(g), next) =>
        PushNested(below, top, g, next);
        StepConsumesOneEvent(c.(stack := below + [next, g]), frameCount, nestedRunning);
      case Yielded(Await(t), next) =>
        YieldSuspends(below, top, Await(t), next);
      case Yielded(Other, next) =>
        YieldSuspends(below, top, Other, next);
      case Finished =>
        PopFinished(below, top);
        StepConsumesOneEvent(c.(stack := below), frameCount, nestedRunning);
    }
  }

  /**
    What `Update` returns is what `IsRunning` answers right after it, at the
    same frame count. `after` is the awaited coroutine's answer afterwards; it
    must agree with the one the step consulted whenever the step kept the same
    awaited coroutine.
  */
  lemma StepReportsRunning<T>(s: TaskState<T>, frameCount: int, nestedRunning: bool, after: bool)
    requires Step(s, frameCount, nestedRunning).state.nested == s.nested ==> after == nestedRunning
    ensures Step(s, frameCount, nestedRunning).running
        == Running(Step(s, frameCount, nestedRunning).state, frameCount, after)
  {
    if Ready(s, frameCount, nestedRunning) {
      StepConsumesOneEvent(s, frameCount, nestedRunning);
    }
  }

  /**
    A step that reports the coroutine finished leaves it with an empty stack,
    no awaited coroutine and a wake frame already reached; stepping it again at
    the same or any later frame changes nothing and again reports it finished.
  */
  lemma FinishedStaysFinished<T>(s: TaskState<T>, frameCount: int, nestedRunning: bool,
                                 later: int, laterRunning: bool)
    requires !Step(s, frameCount, nestedRunning).running
    requires frameCount <= later
    ensures var d := Step(s, frameCount, nestedRunning).state;
      && d.stack == [] && d.nested == None && d.yieldFrame <= frameCount
      && !Running(d, later, laterRunning)
      && Step(d, later, laterRunning) == Outcome(false, d)
  {
    StepConsumesOneEvent(s, frameCount, nestedRunning);
  }

  /**
    `Start` followed by its one `Update`: the routine's first suspension point
    is reached within the call (if the frame count has reached the initial
    wake frame -1, which it always has in a running player loop).
  */
  lemma StartReachesFirstEvent<T>(routine: Frame<T>, frameCount: int, nestedRunning: bool)
    requires frameCount >= -1
    ensures var o := Step(Started(routine), frameCount, nestedRunning);
      && o.running == (FrameEvents(routine) != [])
      && Events(o.state.stack) == if FrameEvents(routine) == [] then [] else FrameEvents(routine)[1..]
  {
    var s := Started(routine);
    assert s.stack[..0] == [];
    StepConsumesOneEvent(s, frameCount, nestedRunning);
  }

  /**
    The results of calling `Update` once per frame, at `frameCount`,
    `frameCount + 1`, ... (`n` frames), on a coroutine that awaits nothing.
  */
  function UpdateEachFrame<T>(s: TaskState<T>, frameCount: int, n: nat): seq<bool>
    decreases n
  {
    if n == 0 then []
    else
      var o := Step(s, frameCount, false);
      [o.running] + UpdateEachFrame(o.state, frameCount + 1, n - 1)
  }

  /**
    Each generic yield costs exactly one frame: a coroutine whose remaining
    suspension points are `k` generic yields reports running on `k`
    consecutive frames and finished on the next one.
  */
  lemma {:induction false} EachYieldCostsOneFrame<T>(s: TaskState<T>, frameCount: int)
    requires s.nested == None && s.yieldFrame <= frameCount
    requires forall e | e in Events(s.stack) :: e == Other
    ensures UpdateEachFrame(s, frameCount, |Events(s.stack)| + 1)
         == seq(|Events(s.stack)|, _ => true) + [false]
    decreases |Events(s.stack)|
  {
    StepConsumesOneEvent(s, frameCount, false);
    var es := Events(s.stack);
    if es != [] {
      assert es[0] in es;
      var o := Step(s, frameCount, false);
      assert forall e | e in Events(o.state.stack) :: e in es;
      EachYieldCostsOneFrame(o.state, frameCount + 1);
      assert seq(|es|, _ => true) == [true] + seq(|es| - 1, _ => true);
    }
  }
}
