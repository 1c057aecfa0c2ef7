/** The third version of the library (Part3/OSA1.3.c): the scheduler walks
    the ring, and when the walk ends on a node that is alone in its ring it
    falls back to the main thread unless some thread is still unfinished. */
module Osa3 {
  import opened Ring
  import opened Table
  import opened Dispatch

  /** The highest slot below `k` that is not FINISHED, or `dflt` when there
      is none. */
  function LastNotFinished(state: seq<State>, k: nat, dflt: nat): (r: nat)
    requires k <= |state|
    ensures r == dflt || (r < k && state[r] != Finished)
    ensures r < k && r != dflt ==> forall i :: r < i < k ==> state[i] == Finished
    ensures (forall i :: 0 <= i < k ==> state[i] == Finished) ==> r == dflt
    ensures r == dflt && k <= dflt ==> forall i :: 0 <= i < k ==> state[i] == Finished
    decreases k
  {
    if k == 0 then dflt
    else if state[k - 1] != Finished then k - 1
    else LastNotFinished(state, k - 1, dflt)
  }

  /** The `for` loop of `scheduler` that checks for threads left: start from
      the main thread and take every `thread3[i]` that is not FINISHED, so
      the last such thread in array order wins. */
  method LastUnfinished(state: seq<State>, mainThread: nat) returns (r: nat)
    requires mainThread < |state|
    ensures r == LastNotFinished(state, mainThread, mainThread)
    ensures r == mainThread <==> forall i :: 0 <= i < mainThread ==> state[i] == Finished
  {
    r := mainThread;
    for i := 0 to mainThread
      invariant r == LastNotFinished(state, i, mainThread)
      invariant r == mainThread <==> forall j :: 0 <= j < i ==> state[j] == Finished
    {
      LastNotFinishedStep(state, i, mainThread);
      if state[i] != Finished {
        r := i;
      }
    }
  }

  /** Extending the scan by one slot: the new slot wins if it is not
      FINISHED. */
  lemma {:induction false} LastNotFinishedStep(state: seq<State>, i: nat, dflt: nat)
    requires i < |state| && i < dflt
    ensures LastNotFinished(state, i + 1, dflt) ==
      if state[i] != Finished then i else LastNotFinished(state, i, dflt)
  {
  }

  /** One pass of `scheduler`, leaving thread `o`: the walk from the node
      after `o` picks a stop and becomes the marker; a stop alone in its
      ring gives way to the last unfinished thread, or the main thread when
      every thread is FINISHED; then `switcher(o, ...)`. */
  function Scheduled(s: Sched, o: nat): (r: Sched)
    requires Shaped(s) && o <= s.n
    ensures Shaped(r) && r.n == s.n
  {
    var w := FirstStop(s.next, s.state, s.next[o], |s.ring|);
    var x := if s.next[w] == w then LastNotFinished(s.state, s.n, s.n) else w;
    Switch(s.(marker := w), o, x)
  }

  /** `Scheduled` as the scheduler computes it: the marker is the stop
      the walk reaches, and the thread switched to is that stop unless it
      links to itself. */
  lemma ScheduledBy(s: Sched, o: nat, w: nat, x: nat)
    requires Shaped(s) && o <= s.n
    requires w == FirstStop(s.next, s.state, s.next[o], |s.ring|)
    requires x == if s.next[w] == w then LastNotFinished(s.state, s.n, s.n) else w
    ensures Scheduled(s, o) == Switch(s.(marker := w), o, x)
  {
  }

  /** A yield, by the executing thread or by the timer on its behalf: the
      thread is saved as READY and the next member of the ring runs; a
      thread alone in the ring continues. Nothing is freed or unlinked. */
  lemma YieldStep(s: Sched)
    requires Live(s) && s.current < s.n
    ensures var r := Scheduled(s, s.current);
      Live(r) && r.current == s.next[s.current] && r.current < r.n &&
      r.ring == s.ring && r.stackLive == s.stackLive && r.frees == s.frees &&
      r.state == s.state[s.current := Ready][r.current := Running]
  {
    var c := s.current;
    FirstNodeIsStop(s);
    var w := s.next[c];
    if s.next[w] == w {
      assert s.ring == [c] by { assert |s.ring| == 1 && c in s.ring; }
      AloneIsOnlyUnfinished(s);
      assert LastNotFinished(s.state, s.n, s.n) == c;
    }
    SaveKeepsLive(s, w, w);
  }

  /** The thread whose routine returned is unlinked and its stack freed;
      the next member of the ring runs, and the main thread gets control
      back exactly when the ring is empty, every thread being FINISHED. */
  lemma FinishStep(s: Sched)
    requires Finishing(s)
    ensures var r := Scheduled(s, s.current);
      Live(r) && r.ring == Without(s.ring, s.current) &&
      r.stackLive == s.stackLive[s.current := false] &&
      r.frees == s.frees[s.current := 1] &&
      r.state == s.state[r.current := Running] &&
      r.current == (if |s.ring| == 1 then s.n else s.next[s.current]) &&
      (r.current == r.n <==> r.ring == []) &&
      (r.current == r.n ==> forall i :: 0 <= i < r.n ==> r.state[i] == Finished && r.frees[i] == 1)
  {
    var c := s.current;
    FirstNodeIsStop(s);
    var w := s.next[c];
    var x := if s.next[w] == w then LastNotFinished(s.state, s.n, s.n) else w;
    if s.next[w] == w {
      assert s.ring == [c] by { assert |s.ring| == 1 && c in s.ring; }
      AloneIsOnlyUnfinished(s);
      assert x == s.n;
      assert Without(s.ring, c) == [];
    } else {
      assert w != c && w in s.ring;
      assert w in Without(s.ring, c);
    }
    DisposeKeepsLive(s, w, x);
    var r := Scheduled(s, c);
    if r.current == r.n {
      forall i | 0 <= i < r.n ensures r.state[i] == Finished && r.frees[i] == 1 {
        assert i !in r.ring;
      }
    }
  }

  /** `main` calling `scheduler(mainThread)` on the ring it has just built:
      the main thread is saved as READY and the thread it points at runs. */
  lemma LaunchStep(s: Sched)
    requires Live(s) && s.current == s.n && s.next[s.n] in s.ring
    ensures var r := Scheduled(s, s.n);
      Live(r) && r.current == s.next[s.n] && r.ring == s.ring &&
      r.state == s.state[s.n := Ready][r.current := Running]
  {
    FirstNodeIsStop(s);
    var w := s.next[s.n];
    if s.next[w] == w {
      assert s.ring == [w] by { assert |s.ring| == 1 && w in s.ring; }
      AloneIsOnlyUnfinished(s);
      assert LastNotFinished(s.state, s.n, s.n) == w;
    }
    SaveKeepsLive(s, w, w);
  }

  /** `scheduler(prior)`, leaving `prior`, or the marker for a yield. */
  method Schedule(t: ThreadTable, prior: Option<nat>)
    requires t.WellFormed() && WalkReady(t.View())
    requires prior == None ==> t.marker == t.current
    requires prior.Some? ==> prior.value == t.current
    modifies t`marker, t`stackLive, t`frees, t`next, t`prev, t`ring, t`state, t`current
    ensures t.WellFormed() && t.View() == Scheduled(old(t.View()), old(t.current))
  {
    ghost var s := t.View();
    var o := if prior.Some? then prior.value else t.marker;
    ghost var k :| 0 <= k < |t.ring| && t.ring[k] == t.next[o];
    var nxt := Walk(t.next, t.state, t.ring, t.next[o]);
    ghost var w := nxt;
    t.SetMarker(nxt);
    if t.next[nxt] == nxt {
      nxt := LastUnfinished(t.state, t.n);
    }
    Switcher(t, o, nxt);
    ScheduledBy(s, o, w, nxt);
  }

  /** `threadYield`, and equally a tick of the preemption timer. */
  method Yield(t: ThreadTable)
    requires t.WellFormed() && Live(t.View()) && t.current < t.n
    modifies t`marker, t`stackLive, t`frees, t`next, t`prev, t`ring, t`state, t`current
    ensures t.WellFormed() && Live(t.View())
    ensures t.current == old(t.next[t.current]) && t.ring == old(t.ring)
    ensures t.state == old(t.state)[old(t.current) := Ready][t.current := Running]
    ensures t.stackLive == old(t.stackLive) && t.frees == old(t.frees)
    ensures t.next == old(t.next) && t.prev == old(t.prev)
    ensures t.marker == old(t.next[t.current])
  {
    YieldStep(t.View());
    FirstNodeIsStop(t.View());
    Schedule(t, None);
  }

  /** The tail of `associateStack`: the executing thread's start routine has
      returned, so it is marked FINISHED and disposed of on the way out. */
  method Finish(t: ThreadTable)
    requires t.WellFormed() && Live(t.View()) && t.current < t.n
    modifies t`marker, t`stackLive, t`frees, t`next, t`prev, t`ring, t`state, t`current
    ensures t.WellFormed() && Live(t.View())
    ensures t.ring == Without(old(t.ring), old(t.current))
    ensures t.state[old(t.current)] == Finished
    ensures t.stackLive == old(t.stackLive)[old(t.current) := false]
    ensures t.frees == old(t.frees)[old(t.current) := 1]
    ensures t.marker == old(t.next[t.current])
    ensures t.current == if |old(t.ring)| == 1 then t.n else old(t.next[t.current])
    ensures t.current == t.n ==> forall i :: 0 <= i < t.n ==> t.state[i] == Finished && t.frees[i] == 1
    ensures t.state == old(t.state)[old(t.current) := Finished][t.current := Running]
    ensures t.next == old(t.next)[old(t.prev[t.current]) := old(t.next[t.current])]
    ensures t.prev == old(t.prev)[old(t.next[t.current]) := old(t.prev[t.current])]
  {
    ReturnIsFinishing(t.View());
    t.state := t.state[t.current := Finished];
    FinishStep(t.View());
    FirstNodeIsStop(t.View());
    Schedule(t, Some(t.current));
  }

  /** `main`: create the threads and link them into a ring, point the
      main thread at the first one and call the scheduler. */
  method Run(routines: seq<Routine>) returns (t: ThreadTable)
    ensures fresh(t) && t.n == |routines| && t.WellFormed() && Live(t.View())
    ensures forall i :: 0 <= i < t.n ==> t.tid[i] == i && t.start[i] == routines[i]
    ensures t.n > 0 ==> t.current == 0 && t.ring == Iota(t.n)
    ensures t.n > 0 ==> t.state == Launched(t.n)
    ensures t.n > 0 ==> t.next[t.n] == 0
    ensures t.n == 0 ==> t.current == t.n
  {
    if |routines| == 0 {
      t := new ThreadTable(0);
      return;
    }
    t := Build(routines);
    PointMainAtFirst(t);
    LaunchStep(t.View());
    FirstNodeIsStop(t.View());
    ghost var st := t.state;
    Schedule(t, Some(t.n));
    HandOver(st, t.n, t.current);
  }
}
