# A user-level thread library: ring, switcher and scheduler

This project models the sequential core of a small user-level thread library
for C. The library comes in three successive versions: `Part1/OSA1.1.c`,
`Part2/OSA1.2.c` and `Part3/OSA1.3.c`. Each version works the same way:
- `main` creates `NUMTHREADS` threads with `createThread`.
- A SIGUSR1 handler, `associateStack`, gives each thread its stack and makes it
  READY.
- The threads are linked into a circular doubly linked ring through `prev`
  and `next`.
- Control moves between threads with `switcher`. It disposes of a FINISHED
  thread. Otherwise it saves the thread it leaves as READY and makes the
  thread it enters RUNNING.
- In the two later versions, a `scheduler` walks the ring to choose the next
  thread.

What the model covers:
- **Thread table.** `Table.ThreadTable` is a class. Slots `0 .. n-1` are the
  created threads (`thread3[t]`) and slot `n` is `mainThread`.
  - Its fields are the tids, the start routines, the states, whether a
    slot still owns a live stack (one not yet passed to `free`), and the
    `prev` and `next` links.
  - `current` is the thread `longjmp` last resumed. `marker` is the
    scheduler's `static marker`.
  - Two ghost fields record facts the source only implies. `ring` lists the
    ring's members in `next` order. `frees` counts the calls to `free` per slot.
- **Specification functions.** The part of the table the scheduler touches can
  be read as a value, `Sched`. `switcher` and `scheduler` are specified by pure
  functions on that value:
  - `Dispatch.Switch` and `Osa1.Switch` for the two kinds of `switcher`.
  - `Osa3.Scheduled` and `Osa2.Scheduled` for the two scheduling rules.
- **Methods.** The methods change the table step by step, as the C code does.
  Each one is proved to end in the state its function prescribes.
- **Lemmas.** These prove what the library relies on:
  - The ring stays one closed cycle with `prev` and `next` inverse.
  - In the second and third versions, exactly one slot is RUNNING: the
    executing one. The first version leaves no slot RUNNING once a thread
    has returned to `main` (see Findings).
  - Every other member of the ring is READY, so the scheduler's walk stops
    at once.
  - In the second and third versions, a stack is freed at most once, and
    exactly once for a thread that has been disposed of. A thread that is
    never disposed of keeps its stack: the first version's threads after
    thread 0, and the second version's last thread when a yield hands
    control to `main`. The first version frees without a guard, so a
    second disposal would free again.
  - In the third version, the main thread regains control exactly when
    every thread is FINISHED. The second version can return to `main`
    earlier, while a thread is still READY (see Findings).

The code is shared wherever the versions agree:
- `createThread`, the state part of `associateStack` (SETUP to READY) and
  the linking loop of `main` are written identically in all three files.
  The `printThreadStates` of the two later versions is also identical. These
  live in module `Table`. What `associateStack` does after a routine returns
  differs: the first version calls `switcher(localThread, mainThread)`
  (`Part1/OSA1.1.c:56`), while the later ones call `scheduler(localThread)`.
  That part is each version's `Finish`.
- The `switcher` of `Part2/OSA1.2.c:32-60` and `Part3/OSA1.3.c:45-77`
  differs only in what it prints. It lives in module `Dispatch`, together
  with the walk of `scheduler`, which both later versions share.
- Modules `Osa3`, `Osa2` and `Osa1` hold what is particular to each version.

Where the versions differ, the model proves each one's behaviour, including
the defects listed under Findings.

The scheduler prologue of `Part2/OSA1.2.c:151-155` has an `else if` where
`Part3/OSA1.3.c:174-180` has two separate tests. This makes no difference
to the model. On the first call `marker` is NULL, but `main` passes its own
thread rather than NULL. After the first call `marker` is never NULL again.

## Model

| member | source | states |
|---|---|---|
| Table.StateLabelInjective | Part3/OSA1.3.c:148-161 | distinct states get distinct labels in a state dump |
| Table.ThreadTable.constructor | Part3/OSA1.3.c:212-215 | before any thread exists the main thread is RUNNING and every other slot is in SETUP, so only the main thread is RUNNING; no stack is held and the ring is empty |
| Table.ThreadTable.NewThread | Part3/OSA1.3.c:111-134 | the new control block gets the next tid, state SETUP, its start routine and a stack of its own; the counter moves on by one; the table stays well formed |
| Table.ThreadTable.AssociateStack | Part3/OSA1.3.c:84-86 | the thread being set up becomes READY and nothing else changes |
| Table.ThreadTable.CreateThread | Part3/OSA1.3.c:111-137 | tids are handed out 0, 1, 2, ... in call order; the new thread comes back READY with its routine and stack, and the links, ring and cursors are untouched |
| Table.ThreadTable.SetMarker | Part3/OSA1.3.c:187 | the scheduler's marker is updated and the rest of the table is unchanged |
| Table.ThreadTable.ReleaseStack | Part3/OSA1.3.c:50-53 | a held stack is freed once and marked released; a released one is left alone |
| Table.ThreadTable.Unlink | Part3/OSA1.3.c:56-59 | exactly two links change: the `next` of the thread's `prev` neighbour and the `prev` of its `next` neighbour, now pointing at each other; the thread leaves the ring |
| Table.ThreadTable.Resume | Part3/OSA1.3.c:60-67 | the target becomes RUNNING and is the one executing |
| Table.ThreadTable.LinkRing | Part3/OSA1.3.c:223-226 | thread t gets `next` (t+1)%n and `prev` (t+n-1)%n, the threads 0..n-1 form one closed cycle, and the main thread's links are untouched |
| Table.ThreadTable.ThreadStates | Part3/OSA1.3.c:140-166 | one line per thread in array order, each with the thread's tid and the label of its state |
| Ring.ModularLinksCycle | Part3/OSA1.3.c:223-226 | modular links make 0..n-1 one duplicate-free cycle along `next`, walked backwards by `prev` |
| Ring.LinksInverse | Part3/OSA1.3.c:223-226 | on a cycle, `prev(next(v)) = v` and `next(prev(v)) = v` for every member |
| Ring.LapReturns | Part3/OSA1.3.c:223-226 | as many steps along `next` as the ring has members bring every member back to itself |
| Ring.SelfLoopIffAlone | Part3/OSA1.3.c:190 | a member links to itself exactly when it is the only one left |
| Ring.UnlinkKeepsCycle | Part3/OSA1.3.c:56-59 | after unlinking a member, the others still form one closed cycle, in the same order |
| Ring.RelinkOutside | Part3/OSA1.3.c:244 | pointing the main thread's `next` into the ring leaves the ring a cycle |
| Dispatch.FirstStopIsFirst | Part3/OSA1.3.c:184-186 | the walk's result is reached after k steps with no stop before it, and it is a stop unless the walk was cut short |
| Dispatch.Walk | Part3/OSA1.3.c:181-186 | on a ring that holds a stop, the loop ends within one lap at the first READY or self-linked member after `old` |
| Dispatch.Switcher | Part3/OSA1.3.c:45-77 | the table ends as `Switch` prescribes. A FINISHED thread has its stack freed if held and is unlinked, and the target becomes RUNNING. Any other thread is saved READY and the target becomes RUNNING. Control passes to the target |
| Dispatch.DisposeFreesOnce | Part3/OSA1.3.c:50-53 | switching away from the same FINISHED thread twice frees its stack at most once |
| Dispatch.ReturnIsFinishing | Part3/OSA1.3.c:88-89 | when a routine returns, its thread is FINISHED and nobody is RUNNING |
| Dispatch.FirstNodeIsStop | Part3/OSA1.3.c:181-186 | in a schedulable state the node after the executing thread is in the ring and is a stop, so the walk ends there; it is self-linked exactly when the ring has one member |
| Dispatch.AloneIsOnlyUnfinished | Part3/OSA1.3.c:190-199 | with one member left in the ring, every other thread is FINISHED |
| Dispatch.SaveKeepsLive | Part3/OSA1.3.c:68-75 | leaving an unfinished thread keeps the ring, links and stacks, and keeps exactly one RUNNING slot and every other member READY |
| Dispatch.DisposeEffect | Part3/OSA1.3.c:46-60 | leaving the FINISHED executing thread frees its stack for the first time, unlinks it and makes the target RUNNING |
| Dispatch.DisposedRingOK | Part3/OSA1.3.c:50-59 | after disposal the ring is still one cycle, holds exactly the threads that own a stack, and every thread outside it is FINISHED and freed once |
| Dispatch.DisposeKeepsLive | Part3/OSA1.3.c:46-67 | disposing of the FINISHED thread keeps the library live: one RUNNING slot, the other members READY, the thread out of the ring and freed once |
| Dispatch.Build | Part3/OSA1.3.c:216-226 | the threads are created in order with tids 0..n-1 and their routines, all READY with their stacks, and linked into the ring 0..n-1 |
| Dispatch.PointMainAtFirst | Part3/OSA1.3.c:244 | the main thread's `next` is thread 0, a ring member, and the state is live |
| Dispatch.Launchable | Part3/OSA1.3.c:211-226 | a freshly built table, with the main thread RUNNING over a ring of READY threads, is live |
| Osa3.LastNotFinished | Part3/OSA1.3.c:194-199 | the result is the highest slot that is not FINISHED, or the main thread when all are FINISHED |
| Osa3.LastUnfinished | Part3/OSA1.3.c:192-199 | the loop picks the last slot in array order that is not FINISHED, and keeps the main thread exactly when every thread is FINISHED |
| Osa3.YieldStep | Part3/OSA1.3.c:169-209 | a yield saves the thread READY and runs the next member of the ring; a thread alone in the ring continues; the state stays live |
| Osa3.FinishStep | Part3/OSA1.3.c:169-204 | a returned thread leaves the ring with its stack freed once. The next member runs, or the main thread once the ring is empty, and then every thread is FINISHED |
| Osa3.LaunchStep | Part3/OSA1.3.c:244-248 | `main`'s call saves the main thread READY and thread 0 runs, even when it is the only thread |
| Osa3.Schedule | Part3/OSA1.3.c:169-204 | one pass of `scheduler` ends in the state `Scheduled` prescribes: marker on the walk's stop, then the switch to the stop or the exhaustion fallback; the walk may pass any number of nodes, as long as some member of the ring is a stop |
| Osa3.Yield | Part3/OSA1.3.c:207-209 | a yield keeps the state live, switches to the next member of the ring and changes only two states; the marker becomes the node after the yielding thread; the ring, the links and the stacks are unchanged |
| Osa3.Finish | Part3/OSA1.3.c:87-90 | a returned thread is FINISHED, unlinked and freed once. Only its two neighbours' links change, and only it and the target change state. Only its stack flag and free count change. The marker becomes its successor, itself when it was alone. The main thread regains control exactly when the ring had one member, and then all threads are FINISHED |
| Osa3.Run | Part3/OSA1.3.c:211-248 | after `main` hands over, thread 0 runs, the others and `main` are READY, the ring is 0..n-1, and the main thread's `next` points at thread 0 |
| Osa2.YieldStep | Part2/OSA1.2.c:147-171 | a yield runs the next member of the ring, but a thread alone in the ring hands control to the main thread |
| Osa2.StrandedOnYield | Part2/OSA1.2.c:163-165 | a yield by the last thread in the ring returns to `main` while that thread is still READY and owns its stack |
| Osa2.FinishStep | Part2/OSA1.2.c:147-167 | a returned thread leaves the ring with its stack freed once; the main thread regains control once the ring is empty |
| Osa2.LaunchStep | Part2/OSA1.2.c:188-191 | `main`'s call runs thread 0, except that with a single thread control comes straight back to `main` |
| Osa2.Schedule | Part2/OSA1.2.c:147-167 | one pass of `scheduler` ends as `Osa2.Scheduled` prescribes, with the unconditional fallback to the main thread; the walk may pass any number of nodes, as long as some member of the ring is a stop |
| Osa2.Yield | Part2/OSA1.2.c:169-171 | a yield keeps the state live and moves to the next member, or to the main thread when the thread is alone; the marker becomes the node after the yielding thread, the lone thread itself when control goes to `main`; the ring, the links and the stacks are unchanged |
| Osa2.Finish | Part2/OSA1.2.c:70-74 | a returned thread is FINISHED, unlinked and freed once. Only its two neighbours' links change, and only it and the target change state. Only its stack flag and free count change. The marker becomes its successor, itself when it was alone. The main thread regains control exactly when the ring had one member |
| Osa2.Run | Part2/OSA1.2.c:173-191 | with two or more threads, thread 0 runs; with one, control returns to `main` at once and that thread never runs; the main thread's `next` and the marker are thread 0 |
| Osa1.Switcher | Part1/OSA1.1.c:30-43 | leaving a FINISHED thread frees its stack and changes no state and no link; leaving any other thread saves it READY and makes the target RUNNING; `current` is the target either way |
| Osa1.Finish | Part1/OSA1.1.c:53-56 | a returned thread is FINISHED, freed, and control goes straight back to `main` |
| Osa1.Run | Part1/OSA1.1.c:133-155 | the threads are created and linked into one cycle, and `initial`, thread 0, runs alone |
| Osa1.DisposeFreesEachTime | Part1/OSA1.1.c:31-33 | without the NULL guard, each switch away from a FINISHED thread frees its stack again |
| Osa1.OnlyFirstThreadRuns | Part1/OSA1.1.c:50-58 | only thread 0 ever runs. When it returns, its stack is freed once and `main` resumes. Every other thread stays READY with its stack, and no slot is RUNNING |
| Osa1.NobodyRunningAfterDispose | Part1/OSA1.1.c:31-35 | leaving a FINISHED thread for `main` leaves no slot RUNNING |
| Osa1.SpinScheduler | Part1/OSA1.1.c:123-131 | the result is `current->next` exactly when that node is READY and is not `current`, and NULL exactly when `current->next` is `current`; otherwise the loop is still going |
| Osa1.NeverAdvances | Part1/OSA1.1.c:124-129 | when the node after `current` is neither READY nor `current`, the loop never ends, however many iterations it runs |
| Osa1.NextReady | Part1/OSA1.1.c:123-131 | with the missing advance, the result is the first READY member after `current` in ring order, and NULL exactly when no other member is READY |
| Osa1.FallThroughLabel | Part1/OSA1.1.c:111-117 | without `break`, every state ends with the last case's label |
| Osa1.FallThroughHidesState | Part1/OSA1.1.c:111-117 | READY and FINISHED threads print alike, as "setup" |
| Osa1.BreakKeepsOwnCase | Part3/OSA1.3.c:148-161 | with a `break` after each case, every state keeps its own label |
| Osa1.RingStates | Part1/OSA1.1.c:105-121 | the do-while visits each ring member exactly once, in `next` order from `initial`, one line each |

## Left out

- `setjmp`/`longjmp`: resuming a saved environment is modelled as assigning `current`. The return into the middle of `switcher` that `setjmp` allows is not modelled.
- The signal machinery (`sigaction`, `sigaltstack`, `kill(getpid(), SIGUSR1)`): the handler's state part is the step `Table.ThreadTable.AssociateStack`, and `createThread` calls it directly.
- The preemption timer of `Part3/OSA1.3.c:37-40,228-241`: a tick is a call to `Osa3.Yield` between two steps. The source does not block the timer during a switch, so a tick inside `switcher` or `scheduler` is not modelled, and no atomicity is claimed.
- Osa3.Yield: requires that a created thread is executing. A timer tick that arrives while `main` has control, before the hand-over or after every thread has finished, is not modelled.
- Which stack control is running on: a stack is modelled as an ownership flag, and the model does not track which stack is executing. `associateStack` runs on the thread's own stack (`SA_ONSTACK`, `Part3/OSA1.3.c:100-101`). After the routine returns, `switcher` frees that stack and then goes on running on it: it prints and calls `longjmp` from the freed stack (`Part3/OSA1.3.c:51,64,67`; likewise `Part2/OSA1.2.c:37,48,51` and `Part1/OSA1.1.c:33-35`). `Dispatch.DisposeEffect` and `Osa3.FinishStep` show that the free happens while `current` is still the finished thread, but the model cannot state that this use after free is unsafe.
- `malloc` failures and the `exit` paths that follow them: every allocation is taken to succeed. `free` is modelled as clearing the stack flag and counting the call in the ghost `frees`.
- `printf`, `perror` and `puts` output: only the state labels of `printThreadStates` are modelled.
- The worker routines of the `threads*.c` files and `littleThread.h` are not part of this model. A start routine is an opaque number, and what a routine does is reduced to its calls to `threadYield` (`Yield`) and its return (`Finish`).
- The scheduler's first `marker = nxt` reads an uninitialised local variable. The model starts `marker` at the main thread's slot instead. The value is never used, because `main`'s call passes a non-NULL thread and the pass overwrites `marker`.
- The global `current` of `Part1/OSA1.1.c` is NULL until the first switch. The model starts it at the main thread's slot, which is the thread executing then.
- Object identity and aliasing: threads are slot numbers and the main thread is slot `n`. A `Thread` held in two variables is one slot.
- `Osa1.NextReady` and `Osa1.SpinScheduler` are defined on the ring's values, not on the table, because the `scheduler` of `Part1/OSA1.1.c` is never called.

## Findings

| source | as written | input that shows it | evidently intended | confidence | as-written member | corrected member |
|---|---|---|---|---|---|---|
| Part2/OSA1.2.c:163-165 | a walk that ends on a self-linked node always switches to `mainThread` | `NUMTHREADS` = 1, or a yield by the last thread left in the ring: `main` resumes and ends while that thread is READY and never finishes | fall back to `main` only when no thread is unfinished, as `Part3/OSA1.3.c:190-199` does | high; not executed | Osa2.StrandedOnYield | Osa3.YieldStep |
| Part1/OSA1.1.c:124-129 | the loop never advances `temp` | latent: this `scheduler` is never called, but a call where `current->next` is neither READY nor `current`, e.g. a FINISHED thread, spins for ever | `temp = temp->next` at the end of each iteration | high; not executed | Osa1.NeverAdvances | Osa1.NextReady |
| Part1/OSA1.1.c:111-117 | the `case` arms have no `break` | latent: `printThreadStates` is never called in this version (`Part1/OSA1.1.c:133-155`), but a call would print a READY thread as "setup" | a `break` after each case, as in `Part3/OSA1.3.c:148-161` | high; not executed | Osa1.FallThroughHidesState | Osa1.BreakKeepsOwnCase |
| Part1/OSA1.1.c:31-35 | leaving a FINISHED thread does not mark the target RUNNING | thread 0's routine returns: `main` executes, but its state stays READY and no slot is RUNNING | set the target RUNNING, as `Part3/OSA1.3.c:60` does | medium; not executed | Osa1.NobodyRunningAfterDispose | Dispatch.DisposeKeepsLive |
