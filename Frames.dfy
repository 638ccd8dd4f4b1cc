/**
  Enumerator frames, modelled as finite scripts.

  A C# iterator method produces an `IEnumerator` whose `MoveNext` runs the
  method body up to the next `yield return` and exposes the yielded object as
  `Current`. The stepping engine only ever looks at the sequence of objects an
  enumerator yields, and at one property of each: is it another enumerator,
  another coroutine, or anything else. So an enumerator is modelled here by the
  script of those yields together with a cursor saying how many of them have
  already been produced.

  The type parameter `T` stands for the coroutine class, which is defined in
  module `Coroutines`; keeping it abstract lets this module stay pure.
*/
module Frames {

  /** What one `yield return` hands to the engine. */
  datatype Yield<T> =
    | Nested(frame: Frame<T>)  // an `IEnumerator`: run it as a nested frame
    | Await(task: T)           // an `SCoroutine`: wait until it has finished
    | Other                    // anything else, `null` included: wait one frame

  /** The body of an iterator method, as the yields it will produce in order. */
  datatype Routine<T> = Routine(script: seq<Yield<T>>)

  /** An enumerator: a routine and the number of yields it has already produced. */
  datatype Frame<T> = Frame(routine: Routine<T>, pos: nat)

  /** The result of one `MoveNext`: exhausted, or a yielded value and the advanced enumerator. */
  datatype Advance<T> = Finished | Yielded(value: Yield<T>, next: Frame<T>)

  /**
    `MoveNext` followed by `Current`. An exhausted frame has no work left;
    a yield leaves strictly less work in the advanced frame.
  */
  function MoveNext<T>(f: Frame<T>): (a: Advance<T>)
    ensures a.Finished? ==> SizeFrom(f.routine, f.pos) == 0
    ensures a.Yielded? ==> FrameSize(a.next) < FrameSize(f)
  {
    if f.pos >= |f.routine.script| then Finished
    else Yielded(f.routine.script[f.pos], Frame(f.routine, f.pos + 1))
  }

  /**
    The suspension points that the yields of `r` from index `i` on will cause:
    every `Await` and `Other`, with each nested frame replaced by its own
    suspension points, in the order the engine meets them.
  */
  function EventsFrom<T>(r: Routine<T>, i: nat): (es: seq<Yield<T>>)
    ensures forall e | e in es :: !e.Nested?
    decreases r, |r.script| - i
  {
    if i >= |r.script| then []
    else
      var head := match r.script[i]
        case Nested(g) => EventsFrom(g.routine, g.pos)
        case e => [e];
      head + EventsFrom(r, i + 1)
  }

  /** The suspension points a frame has still to reach. */
  function FrameEvents<T>(f: Frame<T>): seq<Yield<T>>
  {
    EventsFrom(f.routine, f.pos)
  }

  /**
    What `MoveNext` hands out, in terms of suspension points: an exhausted
    frame has none left; otherwise the points of the yielded value (a nested
    frame's own, or the value itself) come first and the advanced frame holds
    the rest.
  */
  lemma AdvanceEvents<T>(f: Frame<T>)
    ensures MoveNext(f).Finished? ==> FrameEvents(f) == []
    ensures MoveNext(f).Yielded? ==>
      FrameEvents(f) == (match MoveNext(f).value
                         case Nested(g) => FrameEvents(g)
                         case e => [e]) + FrameEvents(MoveNext(f).next)
  {
  }

  /**
    The suspension points still ahead of a whole frame stack. The top of the
    stack is its last element; it runs first, then the frame below resumes.
  */
  function Events<T>(stack: seq<Frame<T>>): (es: seq<Yield<T>>)
    ensures forall e | e in es :: !e.Nested?
  {
    if stack == [] then []
    else FrameEvents(stack[|stack| - 1]) + Events(stack[..|stack| - 1])
  }

  /** The number of yields and frames that `r` from index `i` on still holds. */
  function SizeFrom<T>(r: Routine<T>, i: nat): nat
    decreases r, |r.script| - i
  {
    if i >= |r.script| then 0
    else
      var head := match r.script[i]
        case Nested(g) => 2 + SizeFrom(g.routine, g.pos)
        case _ => 1;
      head + SizeFrom(r, i + 1)
  }

  /** The work left in a frame, counting the frame itself. */
  function FrameSize<T>(f: Frame<T>): nat
  {
    1 + SizeFrom(f.routine, f.pos)
  }

  /** The work left in a stack: it drops by one at every push and every pop the engine performs. */
  function StackSize<T>(stack: seq<Frame<T>>): nat
  {
    if stack == [] then 0
    else FrameSize(stack[|stack| - 1]) + StackSize(stack[..|stack| - 1])
  }

  /** Replacing the top frame by a frame and the frame it yielded keeps the events and shrinks the stack. */
  lemma PushNested<T>(below: seq<Frame<T>>, top: Frame<T>, g: Frame<T>, next: Frame<T>)
    requires MoveNext(top) == Yielded(Nested(g), next)
    ensures Events(below + [next, g]) == Events(below + [top])
    ensures StackSize(below + [next, g]) < StackSize(below + [top])
  {
    var s, t := below + [next, g], below + [top];
    assert s[..|s| - 1] == below + [next] && (below + [next])[..|below|] == below;
    assert t[..|t| - 1] == below;
  }

  /** Popping an exhausted frame keeps the events and shrinks the stack. */
  lemma PopFinished<T>(below: seq<Frame<T>>, top: Frame<T>)
    requires MoveNext(top) == Finished
    ensures Events(below) == Events(below + [top])
    ensures StackSize(below) < StackSize(below + [top])
  {
    var t := below + [top];
    assert t[..|t| - 1] == below;
  }

  /** A frame that yields a suspension point removes exactly the first event of the stack. */
  lemma YieldSuspends<T>(below: seq<Frame<T>>, top: Frame<T>, y: Yield<T>, next: Frame<T>)
    requires MoveNext(top) == Yielded(y, next) && !y.Nested?
    ensures Events(below + [top]) == [y] + Events(below + [next])
  {
    var s, t := below + [next], below + [top];
    assert s[..|s| - 1] == below;
    assert t[..|t| - 1] == below;
  }
}
