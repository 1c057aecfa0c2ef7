/** The first version of the library (Part1/OSA1.1.c): threads are created
    and linked into a ring, `main` switches to the first thread, and a
    thread whose routine returns switches straight back to `main`. Its
    `scheduler` is written but never called. */
module Osa1 {
  import opened Ring
  import opened Table
  import opened Dispatch

  /** The effect of this version's `switcher(p, x)`. Leaving a FINISHED
      thread frees its stack without checking it and passes control to `x`,
      changing no state and no link. Leaving any other thread saves it as
      READY and makes `x` RUNNING. */
  function Switch(s: Sched, p: nat, x: nat): (r: Sched)
    requires Shaped(s) && p <= s.n && x <= s.n
    ensures Shaped(r) && r.n == s.n && r.current == x
    ensures r.ring == s.ring && r.next == s.next && r.prev == s.prev && r.marker == s.marker
  {
    if s.state[p] == Finished then
      s.(stackLive := s.stackLive[p := false], frees := s.frees[p := s.frees[p] + 1], current := x)
    else
      s.(state := s.state[p := Ready][x := Running], current := x)
  }

  /** `switcher(p, x)`, step by step; `current = nextThread` is the
      assignment to `current`. */
  method Switcher(t: ThreadTable, p: nat, x: nat)
    requires t.WellFormed() && p <= t.n && x <= t.n
    modifies t`stackLive, t`frees, t`state, t`current
    ensures t.WellFormed() && t.View() == Switch(old(t.View()), p, x)
  {
    if t.state[p] == Finished {
      t.stackLive := t.stackLive[p := false];
      t.frees := t.frees[p := t.frees[p] + 1];
      t.current := x;
    } else {
      t.state := t.state[p := Ready];
      t.state := t.state[x := Running];
      t.current := x;
    }
  }

  /** The tail of `associateStack`: the executing thread's routine has
      returned; it is marked FINISHED and control goes back to `main`. */
  method Finish(t: ThreadTable)
    requires t.WellFormed() && t.current < t.n
    modifies t`stackLive, t`frees, t`state, t`current
    ensures t.WellFormed() && t.current == t.n
    ensures t.state == old(t.state)[old(t.current) := Finished]
    ensures t.stackLive == old(t.stackLive)[old(t.current) := false]
    ensures t.frees == old(t.frees)[old(t.current) := old(t.frees[t.current]) + 1]
    ensures t.ring == old(t.ring) && t.next == old(t.next) && t.prev == old(t.prev)
  {
    t.state := t.state[t.current := Finished];
    Switcher(t, t.current, t.n);
  }

  /** `main`: create the threads, link them into a ring and switch to the
      first one, `initial`. */
  method Run(routines: seq<Routine>) returns (t: ThreadTable)
    ensures fresh(t) && t.n == |routines| && t.WellFormed()
    ensures forall i :: 0 <= i < t.n ==> t.tid[i] == i && t.start[i] == routines[i]
    ensures t.n > 0 ==> t.current == 0 && t.ring == Iota(t.n) && Cycle(t.next, t.prev, t.ring)
    ensures t.n > 0 ==> t.state == Launched(t.n) && OneRunning(t.View())
    ensures t.n == 0 ==> t.current == t.n
  {
    if |routines| == 0 {
      t := new ThreadTable(0);
      return;
    }
    t := Build(routines);
    Launchable(t.View());
    Switcher(t, t.n, 0);
  }

  /** Without the NULL guard of the later versions, every switch away
      from a FINISHED thread frees its stack again. */
  lemma DisposeFreesEachTime(s: Sched, p: nat, x: nat, y: nat)
    requires Shaped(s) && p <= s.n && x <= s.n && y <= s.n && s.state[p] == Finished
    ensures Switch(Switch(s, p, x), p, y).frees[p] == s.frees[p] + 2
  {
  }

  /** What this version does from start to end: only the first thread
      runs; when its routine returns its stack is freed once and `main`
      resumes, while every other thread stays READY with its stack, and no
      slot is left RUNNING. */
  lemma OnlyFirstThreadRuns(s: Sched)
    requires Live(s) && s.n > 0 && s.current == s.n && 0 in s.ring
    requires forall j :: 0 <= j < s.n ==> s.state[j] == Ready && s.frees[j] == 0
    ensures var s1 := Switch(s, s.n, 0);
      var s2 := Switch(s1.(state := s1.state[0 := Finished]), 0, s.n);
      s1.current == 0 && OneRunning(s1) &&
      s2.current == s.n && s2.state[0] == Finished && !s2.stackLive[0] && s2.frees[0] == 1 &&
      (forall i :: 0 < i < s.n ==> s2.state[i] == Ready && s2.stackLive[i] && s2.frees[i] == 0) &&
      (forall i :: 0 <= i <= s.n ==> s2.state[i] != Running)
  {
    var s1 := Switch(s, s.n, 0);
    forall i | 0 <= i <= s.n && i != 0 ensures s1.state[i] != Running {
      if i < s.n { assert s.state[i] == Ready; }
    }
    forall i | 0 < i < s.n ensures s.stackLive[i] {
      assert s.state[i] != Finished;
    }
  }

  /** Leaving a FINISHED thread for `main` leaves no slot RUNNING, although
      `main` is executing: this version never marks the thread it switches
      to on that path. */
  lemma NobodyRunningAfterDispose(s: Sched)
    requires Finishing(s)
    ensures var r := Switch(s, s.current, s.n);
      r.current == r.n && r.state[r.current] != Running && !OneRunning(r)
  {
  }

  /** What the `scheduler` loop can do: return a thread, return NULL, or
      go round for ever. */
  datatype Pick = Picked(thread: nat) | NoneLeft | Spinning

  /** `scheduler` as written, given `fuel` iterations of its loop: `temp`
      starts at the node after `current` and the loop body never moves
      it. */
  function SpinScheduler(s: Sched, temp: nat, fuel: nat): (r: Pick)
    requires Shaped(s) && temp <= s.n
    ensures r.Picked? ==> r.thread == temp && s.state[temp] == Ready
    ensures r == NoneLeft <==> temp == s.current
    ensures temp != s.current && s.state[temp] == Ready ==> r == Picked(temp)
    decreases fuel
  {
    if temp == s.current then NoneLeft
    else if s.state[temp] == Ready then Picked(temp)
    else if fuel == 0 then Spinning
    else SpinScheduler(s, temp, fuel - 1)
  }

  /** The defect of this version's `scheduler`: when the node after the
      executing thread is neither READY nor the executing thread, no number
      of iterations ends the loop. */
  lemma {:induction false} NeverAdvances(s: Sched, fuel: nat)
    requires Shaped(s) && s.next[s.current] != s.current && s.state[s.next[s.current]] != Ready
    ensures SpinScheduler(s, s.next[s.current], fuel) == Spinning
  {
    if fuel > 0 {
      NeverAdvances(s, fuel - 1);
    }
  }

  /** `scheduler` with the step `temp = temp->next` it is missing: the first
      READY thread after `current` in ring order, or NULL when the walk
      comes back round to `current` without finding one. */
  method NextReady(next: seq<nat>, state: seq<State>, ghost ring: seq<nat>, current: nat)
    returns (r: Option<nat>)
    requires |state| == |next| && Closed(next) && Distinct(ring) && NextCycle(next, ring)
    requires current in ring
    ensures r.Some? ==> r.value in ring && r.value != current && state[r.value] == Ready
    ensures r.Some? ==>
      exists k :: 0 < k < |ring| && r.value == Iter(next, current, k) &&
        forall j :: 0 < j < k ==> state[Iter(next, current, j)] != Ready
    ensures r.None? <==> forall v :: v in ring && v != current ==> state[v] != Ready
  {
    ghost var m := |ring|;
    ghost var i0 :| 0 <= i0 < m && ring[i0] == current;
    var temp := next[current];
    ghost var steps: nat := 1;
    IterAlongRing(next, ring, i0, 1);
    while temp != current
      invariant 1 <= steps <= m
      invariant temp == Iter(next, current, steps) == ring[Ahead(i0, steps, m)]
      invariant forall j :: 0 < j < steps ==> state[Iter(next, current, j)] != Ready
      decreases m - steps
    {
      if steps == m {
        LapReturns(next, ring, i0);
        assert false;
      }
      if state[temp] == Ready {
        return Some(temp);
      }
      temp := next[temp];
      steps := steps + 1;
      IterAlongRing(next, ring, i0, steps);
    }
    AheadWithinLap(i0, steps, m);
    forall v | v in ring && v != current ensures state[v] != Ready {
      var j :| 0 <= j < m && ring[j] == v;
      LapReaches(next, ring, i0, j);
    }
    return None;
  }

  /** The labels the `switch` of `printThreadStates` assigns, case by case
      in the order the cases are written. */
  const CaseLabels: seq<string> := ["ready", "running", "finished", "setup"]

  /** The case of that `switch` a state enters. */
  function CaseIndex(s: State): (k: nat)
    ensures k < |CaseLabels|
  {
    match s
    case Ready => 0
    case Running => 1
    case Finished => 2
    case Setup => 3
  }

  /** The label this version prints: its cases have no `break`, so control
      runs from the matching case through every later one, and the last
      assignment made is the one that stays. */
  function FallThroughLabel(s: State): (r: string)
    ensures r == CaseLabels[|CaseLabels| - 1]
  {
    var tail := CaseLabels[CaseIndex(s)..];
    tail[|tail| - 1]
  }

  /** The defect: every thread is reported as "setup", so a READY and a
      FINISHED thread print alike. */
  lemma FallThroughHidesState()
    ensures FallThroughLabel(Ready) == FallThroughLabel(Finished) == "setup"
    ensures StateLabel(Ready) != StateLabel(Finished)
  {
  }

  /** With a `break` after each case, as the later versions have, every
      state keeps its own case's label. */
  lemma BreakKeepsOwnCase(s: State)
    ensures StateLabel(s) == CaseLabels[CaseIndex(s)]
  {
  }

  /** This version's `printThreadStates`: a `do`-`while` walk of the ring
      from `initial`, the first thread created, one line per member in
      `next` order, until the walk is back at `initial`. */
  method RingStates(t: ThreadTable) returns (lines: seq<(int, string)>)
    requires t.WellFormed() && |t.ring| > 0 && t.ring[0] == 0 && Cycle(t.next, t.prev, t.ring)
    ensures |lines| == |t.ring|
    ensures forall k :: 0 <= k < |t.ring| ==>
      lines[k] == (t.tid[t.ring[k]], FallThroughLabel(t.state[t.ring[k]]))
  {
    var initial := 0;
    var temp := initial;
    lines := [(t.tid[temp], FallThroughLabel(t.state[temp]))];
    temp := t.next[temp];
    ghost var k := 1;
    assert t.next[t.ring[0]] == t.ring[Succ(0, |t.ring|)];
    while temp != initial
      invariant 1 <= k <= |t.ring| && |lines| == k
      invariant temp == if k < |t.ring| then t.ring[k] else initial
      invariant forall j :: 0 <= j < k ==>
        lines[j] == (t.tid[t.ring[j]], FallThroughLabel(t.state[t.ring[j]]))
      decreases |t.ring| - k
    {
      assert t.next[t.ring[k]] == t.ring[Succ(k, |t.ring|)];
      lines := lines + [(t.tid[temp], FallThroughLabel(t.state[temp]))];
      temp := t.next[temp];
      k := k + 1;
    }
  }
}
