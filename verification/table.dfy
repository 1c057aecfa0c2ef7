/** The thread table shared by all three versions of the library: one slot
    per thread control block (`struct thread`), plus one slot for the main
    thread. The `static nextTID` counter of `createThread` and the signal
    handler that moves a freshly created thread from SETUP to READY live here
    too, because the three versions write them identically. */
module Table {
  import opened Ring

  datatype State = Setup | Ready | Running | Finished

  datatype Option<T> = None | Some(value: T)

  /** A start routine, known only by its identity: the worker routines a
      thread runs are not part of this model. */
  type Routine = nat

  /** The label `printThreadStates` prints for a state. */
  function StateLabel(s: State): (r: string)
  {
    match s
    case Ready => "ready"
    case Running => "running"
    case Finished => "finished"
    case Setup => "setup"
  }

  /** Different states print differently, so a dump identifies every state. */
  lemma StateLabelInjective(a: State, b: State)
    ensures StateLabel(a) == StateLabel(b) ==> a == b
  {
  }

  /** The part of the table the scheduler reads and writes, as a value:
      what `switcher` and `scheduler` are specified against. */
  datatype Sched = Sched(
    n: nat,
    state: seq<State>,
    stackLive: seq<bool>,
    next: seq<nat>,
    prev: seq<nat>,
    current: nat,
    marker: nat,
    ring: seq<nat>,
    frees: seq<nat>)

  /** Every slot has an entry, every link and cursor names a slot, ring
      members are created threads, and the main thread owns no allocated
      stack. */
  ghost predicate Shaped(s: Sched)
  {
    |s.state| == s.n + 1 && |s.stackLive| == s.n + 1 && |s.next| == s.n + 1 &&
    |s.prev| == s.n + 1 && |s.frees| == s.n + 1 &&
    s.current <= s.n && s.marker <= s.n &&
    Closed(s.next) && Closed(s.prev) &&
    (forall v :: v in s.ring ==> v < s.n) &&
    !s.stackLive[s.n]
  }

  class ThreadTable {
    /** NUMTHREADS. Slots 0 .. n-1 are the created threads (`thread3[t]`),
        slot `n` is `mainThread`. */
    const n: nat
    /** The `static nextTID` counter of `createThread`. */
    var nextTID: nat
    /** The global `newThread`: the thread currently being set up. */
    var newThread: nat
    var tid: seq<int>
    var start: seq<Routine>
    var state: seq<State>
    /** The slot still owns a live allocated stack: one that has not been
        passed to `free`. */
    var stackLive: seq<bool>
    var next: seq<nat>
    var prev: seq<nat>
    /** The thread whose saved environment was last resumed by `longjmp`:
        the one that is executing. */
    var current: nat
    /** The scheduler's `static marker`. */
    var marker: nat
    /** The members of the ring, in `next` order. */
    ghost var ring: seq<nat>
    /** How many times each slot's stack has been passed to `free`. */
    ghost var frees: seq<nat>

    /** The scheduler's part of the table, as a value. */
    ghost function View(): Sched
      reads this
    {
      Sched(n, state, stackLive, next, prev, current, marker, ring, frees)
    }

    ghost predicate WellFormed()
      reads this
    {
      Shaped(View()) &&
      |tid| == n + 1 && |start| == n + 1 && nextTID <= n && newThread <= n &&
      (forall i :: 0 <= i < nextTID ==> tid[i] == i)
    }

    /** `main` before any thread exists: only the main thread, RUNNING. */
    constructor (n: nat)
      ensures WellFormed() && this.n == n
      ensures nextTID == 0 && newThread == n && current == n && marker == n
      ensures state[n] == Running && ring == []
      ensures forall i :: 0 <= i < n ==> state[i] == Setup
      ensures forall i :: 0 <= i <= n ==> !stackLive[i] && frees[i] == 0
    {
      this.n := n;
      nextTID := 0;
      newThread := n;
      tid := seq(n + 1, _ => -1);
      start := seq(n + 1, _ => 0);
      state := seq(n + 1, i => if i == n then Running else Setup);
      stackLive := seq(n + 1, _ => false);
      next := seq(n + 1, _ => n);
      prev := seq(n + 1, _ => n);
      current := n;
      marker := n;
      ring := [];
      frees := seq(n + 1, _ => 0);
    }

    /** The first part of `createThread`: a control block with the next tid,
        in SETUP, with its start routine and a stack of its own. */
    method NewThread(r: Routine) returns (id: nat)
      requires WellFormed() && nextTID < n
      modifies this
      ensures WellFormed()
      ensures id == old(nextTID) && nextTID == id + 1 && newThread == id
      ensures tid == old(tid)[id := id] && start == old(start)[id := r]
      ensures state == old(state)[id := Setup] && stackLive == old(stackLive)[id := true]
      ensures next == old(next) && prev == old(prev) && current == old(current)
      ensures marker == old(marker) && ring == old(ring) && frees == old(frees)
    {
      id := nextTID;
      nextTID := nextTID + 1;
      tid := tid[id := id];
      state := state[id := Setup];
      start := start[id := r];
      stackLive := stackLive[id := true];
      newThread := id;
    }

    /** The state part of the SIGUSR1 handler `associateStack`: the thread
        being set up now has its stack and becomes READY. */
    method AssociateStack()
      requires WellFormed() && newThread < n
      modifies this`state
      ensures WellFormed()
      ensures state == old(state)[newThread := Ready]
    {
      state := state[newThread := Ready];
    }

    /** `createThread`: a new thread, bootstrapped by the signal it raises
        before returning, so that it comes back READY. */
    method CreateThread(r: Routine) returns (id: nat)
      requires WellFormed() && nextTID < n
      modifies this
      ensures WellFormed()
      ensures id == old(nextTID) && nextTID == id + 1
      ensures tid == old(tid)[id := id] && start == old(start)[id := r]
      ensures state == old(state)[id := Ready] && stackLive == old(stackLive)[id := true]
      ensures next == old(next) && prev == old(prev) && current == old(current)
      ensures marker == old(marker) && ring == old(ring) && frees == old(frees)
    {
      id := NewThread(r);
      AssociateStack();
    }

    /** The scheduler recording where its walk stopped. */
    method SetMarker(m: nat)
      requires WellFormed() && m <= n
      modifies this`marker
      ensures WellFormed() && View() == old(View()).(marker := m)
    {
      marker := m;
    }

    /** The NULL-guarded release of a disposed thread's stack: freed once,
        and marked released so that it is never freed again. */
    method ReleaseStack(p: nat)
      requires WellFormed() && p <= n
      modifies this`stackLive, this`frees
      ensures WellFormed()
      ensures stackLive == if old(stackLive[p]) then old(stackLive)[p := false] else old(stackLive)
      ensures frees == if old(stackLive[p]) then old(frees)[p := old(frees[p]) + 1] else old(frees)
    {
      if stackLive[p] {
        stackLive := stackLive[p := false];
        frees := frees[p := frees[p] + 1];
      }
    }

    /** Taking `p` out of the ring: its `prev` neighbour's `next` and its
        `next` neighbour's `prev` are pointed at each other. */
    method Unlink(p: nat)
      requires WellFormed() && p <= n
      modifies this`next, this`prev, this`ring
      ensures WellFormed()
      ensures next == old(next)[old(prev[p]) := old(next[p])]
      ensures prev == old(prev)[old(next[p]) := old(prev[p])]
      ensures ring == Without(old(ring), p)
    {
      var temp1 := prev[p];
      var temp2 := next[p];
      next := next[temp1 := temp2];
      prev := prev[temp2 := temp1];
      ring := Without(ring, p);
    }

    /** `longjmp` into `x`: it becomes RUNNING and is the one executing. */
    method Resume(x: nat)
      requires WellFormed() && x <= n
      modifies this`state, this`current
      ensures WellFormed()
      ensures state == old(state)[x := Running] && current == x
    {
      state := state[x := Running];
      current := x;
    }

    /** The linking loop of `main`: thread t gets `prev` (t + n - 1) % n and
        `next` (t + 1) % n. */
    method LinkRing()
      requires WellFormed() && nextTID == n
      modifies this`next, this`prev, this`ring
      ensures WellFormed()
      ensures forall t :: 0 <= t < n ==> next[t] == (t + 1) % n && prev[t] == (t + n - 1) % n
      ensures next[n] == old(next[n]) && prev[n] == old(prev[n])
      ensures ring == Iota(n) && Cycle(next, prev, ring)
    {
      for t := 0 to n
        invariant |next| == n + 1 && |prev| == n + 1 && Closed(next) && Closed(prev)
        invariant forall u :: 0 <= u < t ==> next[u] == (u + 1) % n && prev[u] == (u + n - 1) % n
        invariant next[n] == old(next[n]) && prev[n] == old(prev[n])
      {
        next := next[t := (t + 1) % n];
        prev := prev[t := (t + n - 1) % n];
      }
      ring := Iota(n);
      ModularLinksCycle(next, prev, n);
    }

    /** `printThreadStates` of the two later versions: one line per slot of
        `thread3`, in array order, with the thread's tid and state label. */
    method ThreadStates() returns (lines: seq<(int, string)>)
      requires WellFormed()
      ensures |lines| == n
      ensures forall i :: 0 <= i < n ==> lines[i] == (tid[i], StateLabel(state[i]))
    {
      lines := [];
      for i := 0 to n
        invariant |lines| == i
        invariant forall j :: 0 <= j < i ==> lines[j] == (tid[j], StateLabel(state[j]))
      {
        lines := lines + [(tid[i], StateLabel(state[i]))];
      }
    }
  }
}
