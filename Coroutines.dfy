/**
  The coroutine class and the runner that drives a list of coroutines once per
  frame (`SCoroutine` and `SCoroutineRunner`).

  A coroutine's `nested` field points at another coroutine, which may itself
  await a third, and so on. `IsRunning` follows that chain. In the states
  `Start` and `Update` leave it never consults the awaited coroutine, because
  an empty stack goes with no await; but as a function of arbitrary fields it
  terminates only if the chain has no cycle. The model therefore assumes
  acyclicity explicitly: every coroutine has a ghost `rank`, a coroutine may
  only await coroutines of strictly lower rank, and all coroutines that are
  consulted belong to a ghost universe `U` that is closed under the awaits
  relation (`Good(U)`). The universe is passed to every operation as a ghost
  parameter; it only frames and justifies the model and is not part of the
  computation.

  The frame counter `Time.frameCount` is a parameter, `frameCount`.
*/
module Coroutines {
  import opened Frames
  import opened Stepping
  import opened Seqs

  /** Every coroutine a frame stack will await is in `U` and ranks below `rank`. */
  ghost predicate AwaitsBelow(stack: seq<Frame<Coroutine>>, U: set<Coroutine>, rank: nat)
  {
    forall e | e in Events(stack) && e.Await? :: e.task in U && e.task.rank < rank
  }

  /** Every coroutine of `U` awaits, now or later, only coroutines of `U` of lower rank. */
  ghost predicate Good(U: set<Coroutine>)
    reads U
  {
    forall c {:trigger c.Linked(U)} | c in U :: c.Linked(U)
  }

  /** Enlarging a closed universe by a coroutine that awaits nothing keeps it closed. */
  lemma GoodGrows(U: set<Coroutine>, c: Coroutine)
    requires Good(U) && c.nested == null && Events(c.stack) == []
    ensures Good(U + {c})
  {
    forall d | d in U + {c} ensures d.Linked(U + {c}) {
      if d in U {
        assert d.Linked(U);
      }
    }
  }

  /** The coroutines `cs` are in the states `states`, index by index. */
  ghost predicate Holds(cs: seq<Coroutine>, states: seq<TaskState<Coroutine>>)
    reads cs
  {
    |states| == |cs| && forall j | 0 <= j < |cs| :: cs[j].State() == states[j]
  }

  /**
    A pass from the back that has reached index `i`: the entries at `i` and
    below are still in their states `before`, and each entry above has taken
    the step `Step` from its state in `before` to its state in `states`,
    returning `results[j]`, with `waits[j]` the awaited coroutine's answer at
    that moment.
  */
  ghost predicate Progress(before: seq<TaskState<Coroutine>>, states: seq<TaskState<Coroutine>>,
                           results: seq<bool>, waits: seq<bool>, i: int, frameCount: int)
  {
    && |states| == |before| && |results| == |before| && |waits| == |before| && -1 <= i < |before|
    && (forall j | 0 <= j <= i :: states[j] == before[j])
    && (forall j | i < j < |before| :: Outcome(results[j], states[j]) == Step(before[j], frameCount, waits[j]))
  }

  /** Stepping the entry at `i` moves a pass on to `i - 1`. */
  lemma ProgressStep(before: seq<TaskState<Coroutine>>, states: seq<TaskState<Coroutine>>,
                     results: seq<bool>, waits: seq<bool>, i: nat, frameCount: int,
                     r: bool, after: TaskState<Coroutine>, w: bool)
    requires Progress(before, states, results, waits, i, frameCount)
    requires Outcome(r, after) == Step(before[i], frameCount, w)
    ensures Progress(before, states[i := after], results[i := r], waits[i := w], i - 1, frameCount)
  {
  }

  /** At the end of a pass, every coroutine whose step returned false is no longer running. */
  lemma RemovedAreFinished(cs: seq<Coroutine>, before: seq<TaskState<Coroutine>>, states: seq<TaskState<Coroutine>>,
                           results: seq<bool>, waits: seq<bool>, frameCount: int, U: set<Coroutine>)
    requires Holds(cs, states) && Progress(before, states, results, waits, -1, frameCount)
    requires Good(U) && forall c | c in cs :: c in U
    ensures forall j | 0 <= j < |cs| && !results[j] :: !cs[j].IsRunning(frameCount, U)
  {
    forall j | 0 <= j < |cs| && !results[j] ensures !cs[j].IsRunning(frameCount, U) {
      FinishedStaysFinished(before[j], frameCount, waits[j], frameCount, false);
    }
  }

  /**
    At the end of a pass, a coroutine that was settled on entry is still
    running exactly when its step returned true: after a pass the live list
    holds exactly the running coroutines.
  */
  lemma KeptAreRunning(cs: seq<Coroutine>, before: seq<TaskState<Coroutine>>, states: seq<TaskState<Coroutine>>,
                       results: seq<bool>, waits: seq<bool>, frameCount: int, U: set<Coroutine>)
    requires Holds(cs, states) && Progress(before, states, results, waits, -1, frameCount)
    requires Good(U) && forall c | c in cs :: c in U
    requires forall j | 0 <= j < |before| :: Settled(before[j])
    ensures forall j | 0 <= j < |cs| :: cs[j].IsRunning(frameCount, U) <==> results[j]
  {
    forall j | 0 <= j < |cs| ensures cs[j].IsRunning(frameCount, U) <==> results[j] {
      StepReportsRunning(before[j], frameCount, waits[j], waits[j]);
    }
  }

  /**
    What a finished pass leaves: the kept coroutines are listed once each,
    belong to `U` and are settled, and a coroutine of the pass is kept
    exactly when it is still running.
  */
  lemma PassEnds(cs: seq<Coroutine>, before: seq<TaskState<Coroutine>>, states: seq<TaskState<Coroutine>>,
                 results: seq<bool>, waits: seq<bool>, frameCount: int, U: set<Coroutine>)
    requires Holds(cs, states) && Progress(before, states, results, waits, -1, frameCount)
    requires Good(U) && (forall c | c in cs :: c in U) && Distinct(cs)
    requires forall j | 0 <= j < |before| :: Settled(before[j])
    ensures Distinct(Keep(cs, results))
    ensures forall c | c in Keep(cs, results) :: c in U && Settled(c.State())
    ensures forall c | c in cs :: c in Keep(cs, results) <==> c.IsRunning(frameCount, U)
  {
    KeepDistinct(cs, results);
    KeptAreRunning(cs, before, states, results, waits, frameCount, U);
    forall c | c in cs ensures Settled(c.State()) && (c in Keep(cs, results) <==> c.IsRunning(frameCount, U)) {
      var j :| 0 <= j < |cs| && cs[j] == c;
      assert Settled(states[j]);
    }
  }

  class Coroutine {
    /** The frame stack; its last element is the top, the frame currently executing. */
    var stack: seq<Frame<Coroutine>>
    /** When not null, a coroutine that was yielded and is awaited. */
    var nested: Coroutine?
    /** The frame count this coroutine waits for before it steps again; -1 when none. */
    var yieldFrame: int
    /** The well-founded order on coroutines under which awaits never form a cycle. */
    ghost const rank: nat

    constructor (ghost rank: nat)
      ensures stack == [] && nested == null && yieldFrame == -1
      ensures this.rank == rank
    {
      stack := [];
      nested := null;
      yieldFrame := -1;
      this.rank := rank;
    }

    /** This coroutine awaits only coroutines of `U` of lower rank, now and in its frames. */
    ghost predicate Linked(U: set<Coroutine>)
      reads this
    {
      && (nested != null ==> nested in U && nested.rank < rank)
      && AwaitsBelow(stack, U, rank)
    }

    /** The fields as a value, for the stepping specification. */
    ghost function State(): TaskState<Coroutine>
      reads this
    {
      TaskState(stack, if nested == null then None else Some(nested), yieldFrame)
    }

    /**
      Whether the coroutine is running: a pure query over it and the
      coroutines it awaits. A coroutine whose empty stack goes with no await,
      as every state `Start` and `Update` leave, is running exactly when it is
      busy itself: the awaited coroutine is then never consulted.
    */
    function IsRunning(frameCount: int, ghost U: set<Coroutine>): (r: bool)
      requires this in U && Good(U)
      reads U
      ensures Settled(State()) ==> (r <==> Busy(frameCount))
      ensures r <== Busy(frameCount)
      decreases rank
    {
      assert Linked(U);
      if yieldFrame > frameCount then true
      else if |stack| > 0 then true
      else nested != null && nested.IsRunning(frameCount, U)
    }

    /** The universe is still closed when this coroutine alone has changed and is still linked. */
    twostate lemma KeepsGood(U: set<Coroutine>)
      requires old(Good(U)) && this in U && Linked(U)
      requires forall d | d in U && d != this :: unchanged(d)
      ensures Good(U)
    {
      forall d | d in U ensures d.Linked(U) {
        if d != this {
          assert old(d.Linked(U));
        }
      }
    }

    /** Whether an awaited coroutine exists and is still running. */
    function NestedRunning(frameCount: int, ghost U: set<Coroutine>): bool
      requires this in U && Good(U)
      reads U
    {
      assert Linked(U);
      nested != null && nested.IsRunning(frameCount, U)
    }

    /** Whether this coroutine itself, leaving aside what it awaits, still has something to do. */
    ghost predicate Busy(frameCount: int)
      reads this
    {
      Running(State(), frameCount, false)
    }

    /** `IsRunning` is `Running` of the fields, given the awaited coroutine's own answer. */
    lemma RunningOfState(frameCount: int, U: set<Coroutine>)
      requires this in U && Good(U)
      ensures IsRunning(frameCount, U) == Running(State(), frameCount, NestedRunning(frameCount, U))
    {
    }

    /** This coroutine followed by the coroutines it awaits, transitively. */
    ghost function Chain(U: set<Coroutine>): (cs: seq<Coroutine>)
      requires this in U && Good(U)
      reads U
      ensures cs != [] && cs[0] == this
      ensures forall c | c in cs :: c in U
      decreases rank
    {
      assert Linked(U);
      [this] + if nested == null then [] else nested.Chain(U)
    }

    /** `IsRunning` holds exactly when some coroutine along the await chain is busy. */
    lemma {:induction false} RunningAlongChain(frameCount: int, U: set<Coroutine>)
      requires this in U && Good(U)
      ensures IsRunning(frameCount, U) <==> exists c | c in Chain(U) :: c.Busy(frameCount)
      decreases rank
    {
      assert Linked(U);
      if nested != null {
        nested.RunningAlongChain(frameCount, U);
        var tail := nested.Chain(U);
        assert Chain(U) == [this] + tail;
        if !Busy(frameCount) && nested.IsRunning(frameCount, U) {
          var c :| c in tail && c.Busy(frameCount);
          assert c in Chain(U);
        }
      } else {
        assert Chain(U) == [this] && this in Chain(U);
      }
    }

    /** A coroutine that is not running at some frame is not running at any later frame either. */
    lemma {:induction false} StoppedStaysStopped(frameCount: int, later: int, U: set<Coroutine>)
      requires this in U && Good(U)
      requires frameCount <= later && !IsRunning(frameCount, U)
      ensures !IsRunning(later, U)
      decreases rank
    {
      assert Linked(U);
      if nested != null {
        nested.StoppedStaysStopped(frameCount, later, U);
      }
    }

    /**
      Reset the stack to `routine` alone, clear both waits, and step once.
      `U` must contain this coroutine and every coroutine the routine will
      await, ranked below this one.
    */
    method Start(routine: Frame<Coroutine>, frameCount: int, ghost U: set<Coroutine>)
      requires this in U && Good(U) && AwaitsBelow([routine], U, rank)
      modifies this
      ensures Good(U)
      ensures State() == Step(Started(routine), frameCount, false).state
      ensures frameCount >= -1 ==> (IsRunning(frameCount, U) <==> FrameEvents(routine) != [])
      ensures Settled(State())
    {
      stack := [];            // Clear
      stack := stack + [routine];  // Push
      nested := null;
      yieldFrame := -1;
      assert Linked(U);
      var _ := Update(frameCount, U);
      if frameCount >= -1 {
        StartReachesFirstEvent(routine, frameCount, false);
      }
    }

    /**
      One step: returns whether the coroutine should keep running. The nested
      and finished-frame cases of the source call `Update` again; here they
      continue the loop, and `Step` is the recursive specification.
    */
    method Update(frameCount: int, ghost U: set<Coroutine>) returns (running: bool)
      requires this in U && Good(U)
      modifies this
      ensures Good(U)
      ensures Outcome(running, State()) == Step(old(State()), frameCount, old(NestedRunning(frameCount, U)))
      ensures old(yieldFrame > frameCount || NestedRunning(frameCount, U)) ==> running && State() == old(State())
      ensures !running ==> stack == [] && nested == null && yieldFrame <= frameCount
      ensures running == IsRunning(frameCount, U)
      ensures old(Settled(State())) ==> Settled(State())
    {
      assert Linked(U);
      ghost var waiting := NestedRunning(frameCount, U);
      ghost var goal := Step(State(), frameCount, waiting);
      // This makes a yielded null wait a frame in all situations.
      if yieldFrame > frameCount {
        return true;
      }
      // The frames do not continue until the awaited coroutine has finished.
      if nested != null && nested.IsRunning(frameCount, U) {
        return true;
      }
      nested := null;
      assert Step(State(), frameCount, false) == goal;

      while |stack| > 0
        invariant nested == null && yieldFrame == old(yieldFrame) <= frameCount
        invariant Step(State(), frameCount, false) == goal
        invariant Linked(U)
        decreases StackSize(stack)
      {
        var below, top := stack[..|stack| - 1], stack[|stack| - 1];
        assert stack == below + [top];
        match MoveNext(top) {
          case Yielded(Nested(g), next) =>
            // Run the nested enumerator at once, without a frame delay.
            PushNested(below, top, g, next);
            stack := below + [next, g];
          case Yielded(Await(t), next) =>
            // Wait on the yielded coroutine.
            YieldSuspends(below, top, Await(t), next);
            assert Await(t) in Events(below + [top]);
            stack := below + [next];
            nested := t;
            KeepsGood(U);
            return true;
          case Yielded(Other, next) =>
            // Anything else resumes on the next frame.
            YieldSuspends(below, top, Other, next);
            stack := below + [next];
            yieldFrame := frameCount + 1;
            KeepsGood(U);
            return true;
          case Finished =>
            // Resume the frame below at once, without a frame delay.
            PopFinished(below, top);
            stack := below;
        }
      }
      KeepsGood(U);
      return false;
    }
  }

  /** Starts coroutines and steps the live ones once per frame. */
  class Runner {
    var running: seq<Coroutine>

    /** The live coroutines belong to `U`, none is listed twice, and each is settled. */
    ghost predicate Valid(U: set<Coroutine>)
      reads this, running
    {
      && (forall c | c in running :: c in U)
      && Distinct(running)
      && (forall c | c in running :: Settled(c.State()))
    }

    constructor ()
      ensures running == []
    {
      running := [];
    }

    /**
      Create a coroutine of the given rank, start it on `routine` and add it
      to the live list. The universe grows by the new coroutine.
    */
    method StartCoroutine(routine: Frame<Coroutine>, frameCount: int, ghost U: set<Coroutine>, ghost rank: nat)
      returns (sc: Coroutine)
      requires Good(U) && Valid(U) && AwaitsBelow([routine], U, rank)
      modifies this
      ensures fresh(sc) && sc.rank == rank
      ensures running == old(running) + [sc]
      ensures Good(U + {sc}) && Valid(U + {sc})
      ensures sc.State() == Step(Started(routine), frameCount, false).state
    {
      sc := new Coroutine(rank);
      GoodGrows(U, sc);
      sc.Start(routine, frameCount, U + {sc});
      running := running + [sc];
      assert Distinct(running) by {
        assert sc !in old(running);
      }
    }

    /**
      The body of the loop in `Update`: step the coroutine at index `i` and
      remove it from that index if its step returned false. The ghost
      parameters carry the pass so far, which moves from `i` to `i - 1`.
    */
    method Visit(i: nat, frameCount: int, ghost U: set<Coroutine>, ghost orig: seq<Coroutine>,
                 ghost states: seq<TaskState<Coroutine>>, ghost results: seq<bool>)
      returns (r: bool, ghost w: bool)
      requires i < |orig| && |results| == |orig| && orig[i] in U && Good(U)
      requires forall j | 0 <= j < |orig| && j != i :: orig[j] != orig[i]
      requires Holds(orig, states)
      requires running == orig[..i + 1] + Keep(orig[i + 1..], results[i + 1..])
      modifies this, orig[i]
      ensures Good(U) && Holds(orig, states[i := orig[i].State()])
      ensures Outcome(r, orig[i].State()) == Step(states[i], frameCount, w)
      ensures w == old(orig[i].NestedRunning(frameCount, U))
      ensures running == orig[..i] + Keep(orig[i..], results[i := r][i..])
    {
      assert running[i] == orig[i];
      var c := running[i];
      w := c.NestedRunning(frameCount, U);
      r := c.Update(frameCount, U);
      RemoveAtKeepsSuffix(orig, results, i, r, running);
      if !r {
        running := running[..i] + running[i + 1..];
      }
      forall j | 0 <= j < |orig| && j != i ensures orig[j].State() == states[i := c.State()][j] {
        assert orig[j] != c;
      }
    }

    /**
      Step every live coroutine once, from the last to the first, and remove
      those whose step returned false. For the coroutine at index `i` on
      entry, `before[i]` and `after[i]` are its states on entry and on exit,
      `results[i]` is what its `Update` returned and `waits[i]` what its
      awaited coroutine reported when it was stepped (that answer can depend
      on coroutines stepped earlier in the same call). The live list keeps
      exactly the coroutines whose step returned true, in their order.
    */
    method Update(frameCount: int, ghost U: set<Coroutine>)
      returns (ghost before: seq<TaskState<Coroutine>>, ghost after: seq<TaskState<Coroutine>>,
               ghost results: seq<bool>, ghost waits: seq<bool>)
      requires Good(U) && Valid(U)
      modifies this, running
      ensures Good(U) && Valid(U)
      ensures |before| == |old(running)| && forall i | 0 <= i < |old(running)| :: before[i] == old(running[i].State())
      ensures Holds(old(running), after) && Progress(before, after, results, waits, -1, frameCount)
      ensures running == Keep(old(running), results)
      ensures forall c | c in old(running) :: c in running <==> c.IsRunning(frameCount, U)
    {
      ghost var orig := running;
      before := seq(|orig|, j requires 0 <= j < |orig| reads orig => orig[j].State());
      after := before;
      results := seq(|orig|, _ => false);
      waits := seq(|orig|, _ => false);
      var i := |running| - 1;
      while i >= 0
        invariant -1 <= i < |orig|
        invariant Good(U) && Holds(orig, after) && Progress(before, after, results, waits, i, frameCount)
        invariant running == orig[..i + 1] + Keep(orig[i + 1..], results[i + 1..])
        decreases i
      {
        var r, w := Visit(i, frameCount, U, orig, after, results);
        ProgressStep(before, after, results, waits, i, frameCount, r, orig[i].State(), w);
        after, results, waits := after[i := orig[i].State()], results[i := r], waits[i := w];
        i := i - 1;
      }
      assert orig[..0] + Keep(orig[0..], results[0..]) == Keep(orig, results) by {
        assert orig[..0] == [] && orig[0..] == orig && results[0..] == results;
      }
      assert running == Keep(orig, results);
      assert forall j | 0 <= j < |orig| :: Settled(before[j]) by {
        forall j | 0 <= j < |orig| ensures Settled(before[j]) {
          assert old(orig[j] in running && Settled(orig[j].State()));
        }
      }
      PassEnds(orig, before, after, results, waits, frameCount, U);
    }
  }
}
