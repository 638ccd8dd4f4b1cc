# SimpleCoroutines stepping engine, in Dafny

This project models the stepping engine of `SimpleCoroutines`
(`Scripts/SCoroutine.cs`). The engine is a hand-rolled coroutine runner for
Unity with two classes:

- `SCoroutine` is one task. It has three pieces of state:
  - a stack of enumerator frames, whose top is the frame that runs;
  - an optional awaited coroutine (`nestedCoroutine`);
  - a wake frame (`yieldFrame`), compared with Unity's frame counter.

  `Update` performs one step:
  - It first checks the wake frame and the awaited coroutine.
  - It then advances the top frame and dispatches on the yielded value:
    - a nested enumerator is pushed and run at once;
    - a coroutine becomes the awaited one;
    - anything else delays the task to the next frame.
  - An exhausted frame is popped and the frame below resumes in the same call.

  `IsRunning` is the side-effect-free query.
- `SCoroutineRunner` holds the list of live coroutines. Once per frame it
  steps each of them, from the last to the first, and removes in place those
  whose step returned false.

The modules:

- `Frames`: enumerators as values.
  - A `Routine` is the script of values its iterator method yields: a nested
    frame, a coroutine to await, or anything else.
  - A `Frame` is a routine plus a cursor; `MoveNext` advances the cursor.
  - `Events(stack)` lists the suspension points still ahead of a frame stack.
    These are the awaits and generic yields, with nested frames expanded in the
    order the engine runs them.
- `Stepping`: `Step`, a recursive function of a coroutine's three fields,
  the frame count and the awaited coroutine's answer.
  - It is the specification of `SCoroutine.Update` and recurses exactly where
    the source calls `Update` again.
  - Its lemmas show what one step does to the pending suspension points.
- `Coroutines`: the two classes.
  - `Coroutine` has the fields `stack` (top last), `nested` and `yieldFrame`.
    Its `Update` is a loop in place of the source's tail calls and is proved
    equal to `Step`.
  - `Runner` has the field `running` and the reverse-index loop. Its loop
    body, `Visit`, steps one coroutine and removes it at its index when its
    step returned false.
- `Seqs`: `Keep`, the order-preserving filter that specifies the runner's
  removals, and its lemmas.
- `Scenarios`: a concrete run through the runner.

Three choices shape the model:

- **Acyclicity of awaits.** `IsRunning` consults the awaited coroutine only
  when the stack is empty (`Scripts/SCoroutine.cs:19`). In every state that
  `Start` and `Update` leave, an empty stack goes with no await: an await is
  set only while the advanced frame stays on the stack, and it is cleared
  before any frame is popped (the contract of `Stepping.Step`). So in the
  source the query never goes more than one coroutine deep, and coroutines
  that await each other do not make it recurse forever: they deadlock, each
  `Update` returning true at lines 43-44 on every frame. A Dafny function
  must terminate on arbitrary field values, however, so the model ranks
  coroutines explicitly:
  - every coroutine carries a ghost `rank`;
  - a coroutine may await only coroutines of lower rank, both now and in the
    frames it will still run;
  - every coroutine consulted belongs to a ghost set `U` that is closed under
    the awaits relation (`Good(U)`);
  - `U` is a ghost parameter of every operation.
- **Frame counter.** Unity's `Time.frameCount` is the parameter `frameCount`.
- **Awaited coroutine's answer.** `Step` takes what the awaited coroutine
  answers when asked (`nestedRunning`) as a parameter. `Coroutine.Update`
  supplies the real answer from the heap.

A note on timing in the source. An awaiting coroutine resumes in the same
call as soon as its awaited coroutine reports itself finished when asked
(`Stepping.AwaitCostsNoExtraFrame`). `StartCoroutine` starts a coroutine
(line 96) before it adds it to the list (line 97). So a coroutine B that
coroutine A starts during its own first step is added before A and sits
below it, and the runner, which steps its list from the back (line 104),
steps A before B. If A awaits B and B finishes in that pass, A resumes only
on the next frame, not on the frame B finished. The model does not exhibit
this run: its frame scripts are fixed in advance, so a routine cannot start
a coroutine during a step, and `Runner.Update` does not pin down the awaited
coroutines' answers (see "## Left out").

## Model

| member | source | states |
|---|---|---|
| Frames.MoveNext | Scripts/SCoroutine.cs:49-53 | an exhausted frame has no work left, and a yield leaves strictly less work in the advanced frame: stepping a frame always makes progress |
| Frames.AdvanceEvents | Scripts/SCoroutine.cs:49-53 | an exhausted frame has no suspension point left; otherwise the yielded value's points (a nested enumerator's own, or the value itself) come first and the advanced frame holds exactly the rest |
| Frames.Events | Scripts/SCoroutine.cs:47-79 | the suspension points ahead of a stack never include a nested frame: nested enumerators are expanded in the order the engine runs them |
| Frames.PushNested | Scripts/SCoroutine.cs:54-58 | pushing a yielded nested enumerator (above the advanced frame) leaves the pending suspension points unchanged and strictly decreases the remaining work |
| Frames.PopFinished | Scripts/SCoroutine.cs:73-76 | popping an exhausted frame leaves the pending suspension points unchanged and strictly decreases the remaining work |
| Frames.YieldSuspends | Scripts/SCoroutine.cs:60-69 | a yielded coroutine or other value is exactly the first pending suspension point, and the stack with the advanced top frame holds exactly the rest |
| Stepping.Started | Scripts/SCoroutine.cs:26-29 | the reset state holds exactly the routine's suspension points and work, and neither wait applies at any frame count from -1 on |
| Stepping.Running | Scripts/SCoroutine.cs:13-22 | a coroutine that is not running has no suspension point ahead and neither wait applies to it |
| Stepping.Step | Scripts/SCoroutine.cs:36-84 | a step keeps a coroutine settled (an empty stack goes with no await): it sets an await only while frames remain and clears it before it pops a frame |
| Stepping.AwaitCostsNoExtraFrame | Scripts/SCoroutine.cs:42-45 | while the awaited coroutine runs, a step returns true and changes nothing; once it has finished, the step clears the await and proceeds in the same call as if nothing had been awaited |
| Stepping.StepConsumesOneEvent | Scripts/SCoroutine.cs:36-84 | once neither wait applies, one step consumes exactly the first pending suspension point. An awaited coroutine becomes `nested` with the wake frame kept. A generic yield sets the wake frame to `frameCount + 1`. Either way the step returns true with frames left. With no point left, the stack drains to empty, the await is cleared and the step returns false |
| Stepping.StepReportsRunning | Scripts/SCoroutine.cs:13-22 | the value a step returns equals `IsRunning` on the state it leaves, at the same frame count |
| Stepping.FinishedStaysFinished | Scripts/SCoroutine.cs:80-83 | a step that returns false leaves an empty stack, no await and a wake frame already reached; at that frame or any later one the coroutine is not running and a further step changes nothing and returns false again |
| Stepping.StartReachesFirstEvent | Scripts/SCoroutine.cs:24-31 | a start followed by its one step returns true exactly when the routine has a suspension point, and leaves exactly the points after the first pending |
| Stepping.EachYieldCostsOneFrame | Scripts/SCoroutine.cs:65-69 | a coroutine whose remaining suspension points are `k` generic yields, stepped once per frame, returns true on `k` consecutive frames and false on the next |
| Coroutines.Coroutine.constructor | Scripts/SCoroutine.cs:9-11 | a new coroutine has an empty stack, no await and wake frame -1 |
| Coroutines.Coroutine.IsRunning | Scripts/SCoroutine.cs:13-22 | a busy coroutine is running, and a settled coroutine is running exactly when it is busy itself: the awaited coroutine is then not consulted |
| Coroutines.Coroutine.RunningOfState | Scripts/SCoroutine.cs:13-22 | the query on the object is `Stepping.Running` of its fields, given the awaited coroutine's own answer |
| Coroutines.Coroutine.Chain | Scripts/SCoroutine.cs:19 | the chain of awaited coroutines starts at the coroutine itself and stays inside the closed set `U` |
| Coroutines.Coroutine.RunningAlongChain | Scripts/SCoroutine.cs:13-22 | `IsRunning` holds exactly when some coroutine along the await chain has a wake frame ahead or frames left |
| Coroutines.Coroutine.StoppedStaysStopped | Scripts/SCoroutine.cs:13-22 | a coroutine not running at one frame count is not running at any later one |
| Coroutines.Coroutine.Start | Scripts/SCoroutine.cs:24-31 | the fields end as one `Step` from the stack holding exactly the routine, with no await and wake frame -1. Afterwards `IsRunning` holds exactly when the routine has a suspension point, and an empty stack goes with no await |
| Coroutines.Coroutine.Update | Scripts/SCoroutine.cs:36-84 | the result and the new fields are exactly `Step` of the old fields with the awaited coroutine's real answer. If the wake frame is ahead or the awaited coroutine still runs, it returns true and changes nothing. A false result leaves no frames, no await and a wake frame already reached. The result equals `IsRunning` afterwards, the awaits set stays closed, and "an empty stack goes with no await" is preserved |
| Coroutines.Runner.constructor | Scripts/SCoroutine.cs:90 | a new runner has no live coroutines |
| Coroutines.Runner.StartCoroutine | Scripts/SCoroutine.cs:93-99 | appends exactly one fresh coroutine to the live list, in the state its start leaves; the list stays free of repetitions |
| Coroutines.Runner.Visit | Scripts/SCoroutine.cs:106-107 | the coroutine at index `i` takes exactly one `Step`, with its awaited coroutine's real answer on entry; no other coroutine changes, and it is removed at its index exactly when its step returned false |
| Coroutines.Runner.Update | Scripts/SCoroutine.cs:102-109 | every coroutine live on entry takes exactly one `Step` from its entry state. The new list is exactly the coroutines whose step returned true, in their original order, still without repetitions and settled; a coroutine live on entry stays in the list exactly when it is still running |
| Coroutines.RemovedAreFinished | Scripts/SCoroutine.cs:102-109 | after a runner step, every coroutine it removed reports itself not running |
| Coroutines.KeptAreRunning | Scripts/SCoroutine.cs:102-109 | after a runner step over coroutines settled on entry, a coroutine reports itself running exactly when its step returned true, so it was kept |
| Coroutines.PassEnds | Scripts/SCoroutine.cs:102-109 | the list a runner step leaves has no repetitions, holds only settled coroutines, and holds a coroutine of the pass exactly when it is still running |
| Seqs.Keep | Scripts/SCoroutine.cs:104-108 | filtering never lengthens the list |
| Seqs.KeepDistinct | Scripts/SCoroutine.cs:107 | filtering a list without repetitions keeps it without repetitions, keeps only its elements, and keeps an element exactly when its flag is set |
| Seqs.RemoveAtKeepsSuffix | Scripts/SCoroutine.cs:104-107 | removing the element at index `i` when its step returned false, after the elements above `i` were filtered, leaves every element from `i` on filtered: no element is skipped or visited twice |
| Scenarios.OneYieldThenFinish | Scripts/SCoroutine.cs:93-109 | a routine yielding one generic value, started at frame 0, is running after the start; the runner's step at frame 1 finishes it and removes it from the live list |

## Left out

- `SWaitForSeconds` is not part of this model. It uses the floating-point `Time.time` and Unity's `CustomYieldInstruction`. Because it derives from `CustomYieldInstruction`, which implements `IEnumerator`, a coroutine that yields it runs it as a nested frame (line 54).
- The C# iterator machinery is replaced by scripts fixed in advance. Code that runs between yields is not modelled. A coroutine that a routine awaits must therefore exist before that routine is built.
- Frames are values. One enumerator object shared between two stacks, or reused after it was exhausted, is not modelled.
- Exceptions thrown by `MoveNext` are not modelled; they propagate uncaught in the source.
- The unimplemented support for Unity's `YieldInstruction` and custom yieldables (the two TODOs in `Update`) is absent. A `YieldInstruction` takes the generic one-frame branch, both in the source and in the model. A custom yieldable built on `CustomYieldInstruction` implements `IEnumerator`, so it takes the nested-frame branch (line 54); its own `MoveNext`, which polls `keepWaiting`, is not modelled.
- `Time.frameCount` is a parameter, and the Unity player loop that calls the runner once per frame is left out.
- Frame counts and `yieldFrame` are unbounded integers. In the source both are 32-bit C# `int`s, and `Time.frameCount + 1` (line 68) wraps to `int.MinValue` at `int.MaxValue` in C#'s default unchecked context, so a generic yield on that frame would not delay at all. The model does not capture this wrap. `Stepping.EachYieldCostsOneFrame` and `Coroutines.Coroutine.StoppedStaysStopped` hold for every frame count in the model; in the source they hold only below `int.MaxValue`.
- The absence of cycles among awaited coroutines is an assumption, stated through the ghost `rank` and the closed set `U`. The source does not check it. Coroutines that await themselves or each other never finish in the source; the ghost `rank` excludes them from the model.
- Because a coroutine's `rank` is fixed for its whole lifetime, the model also excludes awaits whose direction flips over time. An example is B, restarted, awaiting A after A's earlier await on B has cleared. The source handles this without trouble.
- Coroutines.Runner.Update: does not state what each awaited coroutine answers during the pass (`waits`). That answer depends on which coroutines were already stepped in the same pass and on their whole await chains. So a run in which one listed coroutine awaits another cannot be derived from this contract alone. Each coroutine's own `Update` states the answer exactly.
- Coroutines.Coroutine.Start: the `IsRunning` consequence is stated for frame counts of at least -1, the initial wake frame; Unity's frame counter is never negative.
