/** What the second and third versions of the library share: `switcher`
    (the two copies differ only in what they print), the walk at the start
    of `scheduler`, and the invariants that hold between scheduling steps.
    `longjmp` is modelled as assigning `current`. */
module Dispatch {
  import opened Ring
  import opened Table

  /** Where the scheduler's walk stops: a READY thread, or a thread whose
      `next` is itself. */
  predicate IsStop(next: seq<nat>, state: seq<State>, v: nat)
  {
    v < |next| && v < |state| && (state[v] == Ready || next[v] == v)
  }

  /** The first stop reached from `v` in at most `fuel` steps along `next`
      (or where the walk is after `fuel` steps). */
  function FirstStop(next: seq<nat>, state: seq<State>, v: nat, fuel: nat): (r: nat)
    requires Closed(next) && v < |next| && |state| == |next|
    ensures r < |next|
    ensures IsStop(next, state, v) ==> r == v
    decreases fuel
  {
    if fuel == 0 || IsStop(next, state, v) then v
    else FirstStop(next, state, next[v], fuel - 1)
  }

  /** Leaving a FINISHED thread `p` for `x`: its stack is freed if it is
      still held, its two neighbours are linked to each other, and `x`
      becomes RUNNING. */
  function Dispose(s: Sched, p: nat, x: nat): (r: Sched)
    requires Shaped(s) && p <= s.n && x <= s.n
    ensures Shaped(r) && r.n == s.n && r.current == x && r.marker == s.marker
  {
    s.(stackLive := if s.stackLive[p] then s.stackLive[p := false] else s.stackLive,
       frees := if s.stackLive[p] then s.frees[p := s.frees[p] + 1] else s.frees,
       next := s.next[s.prev[p] := s.next[p]],
       prev := s.prev[s.next[p] := s.prev[p]],
       ring := Without(s.ring, p),
       state := s.state[x := Running],
       current := x)
  }

  /** Leaving an unfinished thread `p` for `x`: `p` is saved as READY and
      `x` becomes RUNNING; nothing else changes. */
  function Save(s: Sched, p: nat, x: nat): (r: Sched)
    requires Shaped(s) && p <= s.n && x <= s.n
    ensures Shaped(r) && r.n == s.n && r.current == x && r.marker == s.marker
  {
    s.(state := s.state[p := Ready][x := Running], current := x)
  }

  /** The effect of `switcher(p, x)` on the table: control passes to `x`
      either way. */
  function Switch(s: Sched, p: nat, x: nat): (r: Sched)
    requires Shaped(s) && p <= s.n && x <= s.n
    ensures Shaped(r) && r.n == s.n && r.current == x && r.marker == s.marker
  {
    if s.state[p] == Finished then Dispose(s, p, x) else Save(s, p, x)
  }

  /** Switching away from the same FINISHED thread twice frees its stack
      at most once: the first switch clears the stack address, and the
      second finds it NULL. */
  lemma DisposeFreesOnce(s: Sched, p: nat, x: nat, y: nat)
    requires Shaped(s) && p <= s.n && x <= s.n && y <= s.n && s.state[p] == Finished && x != p
    ensures var r := Switch(Switch(s, p, x), p, y);
      r.frees[p] == s.frees[p] + (if s.stackLive[p] then 1 else 0) && !r.stackLive[p]
  {
  }

  /** `switcher(p, x)`, step by step. */
  method Switcher(t: ThreadTable, p: nat, x: nat)
    requires t.WellFormed() && p <= t.n && x <= t.n
    modifies t`stackLive, t`frees, t`next, t`prev, t`ring, t`state, t`current
    ensures t.WellFormed() && t.View() == Switch(old(t.View()), p, x)
  {
    ghost var s := t.View();
    if t.state[p] == Finished {
      t.ReleaseStack(p);
      t.Unlink(p);
      t.Resume(x);
      assert t.View() == Dispose(s, p, x);
    } else {
      t.state := t.state[p := Ready];
      t.Resume(x);
      assert t.View() == Save(s, p, x);
    }
  }

  /** The `while` loop of `scheduler`: from `from`, follow `next` to the
      first stop. On a closed ring that holds a stop it ends within one lap,
      at the first stop on the way. */
  method Walk(next: seq<nat>, state: seq<State>, ghost ring: seq<nat>, from: nat) returns (nxt: nat)
    requires |state| == |next| && Closed(next) && NextCycle(next, ring) && from in ring
    requires exists k :: 0 <= k < |ring| && IsStop(next, state, ring[k])
    ensures IsStop(next, state, nxt) && nxt in ring
    ensures nxt == FirstStop(next, state, from, |ring|)
  {
    ghost var i0 :| 0 <= i0 < |ring| && ring[i0] == from;
    ghost var g :| 0 <= g < |ring| && IsStop(next, state, ring[g]);
    ghost var i: nat, fuel: nat := i0, |ring|;
    nxt := from;
    while state[nxt] != Ready && nxt != next[nxt]
      invariant i < |ring| && nxt == ring[i]
      invariant Dist(i, g, |ring|) < fuel
      invariant FirstStop(next, state, from, |ring|) == FirstStop(next, state, nxt, fuel)
      decreases Dist(i, g, |ring|)
    {
      nxt := next[nxt];
      i := Succ(i, |ring|);
      fuel := fuel - 1;
    }
  }

  /** Iterating once more from the next node is iterating one step further. */
  lemma {:induction false} IterShift(next: seq<nat>, v: nat, k: nat)
    requires Closed(next) && v < |next|
    ensures Iter(next, next[v], k) == Iter(next, v, k + 1)
  {
    if k > 0 {
      IterShift(next, v, k - 1);
    }
  }

  /** The walk from `v` reaches `r` after `k` steps, passing no stop on
      the way, and `r` is a stop unless the walk was cut short at `fuel`. */
  ghost predicate StopsAfter(next: seq<nat>, state: seq<State>, v: nat, fuel: nat, r: nat, k: nat)
    requires Closed(next) && v < |next|
  {
    k <= fuel && r == Iter(next, v, k) &&
    (k < fuel ==> IsStop(next, state, r)) &&
    forall j :: 0 <= j < k ==> !IsStop(next, state, Iter(next, v, j))
  }

  /** What `FirstStop` finds: the first stop along `next`, within the
      fuel. */
  lemma {:induction false} FirstStopIsFirst(next: seq<nat>, state: seq<State>, v: nat, fuel: nat)
    requires Closed(next) && v < |next| && |state| == |next|
    ensures exists k :: StopsAfter(next, state, v, fuel, FirstStop(next, state, v, fuel), k)
    decreases fuel
  {
    var r := FirstStop(next, state, v, fuel);
    if fuel == 0 || IsStop(next, state, v) {
      assert StopsAfter(next, state, v, fuel, r, 0);
    } else {
      FirstStopIsFirst(next, state, next[v], fuel - 1);
      var k: nat :| StopsAfter(next, state, next[v], fuel - 1, r, k);
      IterShift(next, v, k);
      forall j | 0 <= j < k + 1 ensures !IsStop(next, state, Iter(next, v, j)) {
        if j > 0 {
          IterShift(next, v, j - 1);
        }
      }
      assert StopsAfter(next, state, v, fuel, r, k + 1);
    }
  }

  /** The ring bookkeeping every step keeps: the ring is one closed cycle,
      a created thread is in the ring exactly while it owns its stack, and a
      thread outside the ring is FINISHED and has had its stack freed
      exactly once. */
  ghost predicate RingOK(s: Sched)
  {
    Shaped(s) &&
    Cycle(s.next, s.prev, s.ring) &&
    (forall i :: 0 <= i < s.n ==> (i in s.ring <==> s.stackLive[i])) &&
    (forall i :: 0 <= i < s.n ==> s.frees[i] == (if s.stackLive[i] then 0 else 1)) &&
    (forall i :: 0 <= i < s.n && !s.stackLive[i] ==> s.state[i] == Finished)
  }

  /** Exactly one of the threads and the main thread is RUNNING: the one
      that is executing. */
  ghost predicate OneRunning(s: Sched)
    requires Shaped(s)
  {
    s.state[s.current] == Running &&
    forall i :: 0 <= i <= s.n && i != s.current ==> s.state[i] != Running
  }

  /** Every member of the ring other than the executing thread is READY. */
  ghost predicate OthersReady(s: Sched)
    requires Shaped(s)
  {
    forall v :: v in s.ring && v != s.current ==> s.state[v] == Ready
  }

  /** The state between two scheduling steps. An executing thread is in the
      ring and is the scheduler's `marker`. */
  ghost predicate Live(s: Sched)
  {
    RingOK(s) && OneRunning(s) && OthersReady(s) &&
    (s.current < s.n ==> s.current in s.ring && s.marker == s.current)
  }

  /** The executing thread's start routine has just returned and
      `associateStack` has marked it FINISHED: nobody is RUNNING. */
  ghost predicate Finishing(s: Sched)
  {
    RingOK(s) && s.current < s.n && s.current in s.ring && s.marker == s.current &&
    s.state[s.current] == Finished && OthersReady(s) &&
    forall i :: 0 <= i <= s.n ==> s.state[i] != Running
  }

  /** When `scheduler` may be entered, leaving the executing thread: a
      yield from a thread, a thread whose routine returned, or `main`
      handing over to the ring it has just built. */
  ghost predicate Schedulable(s: Sched)
  {
    Finishing(s) || (Live(s) && (s.current < s.n || s.next[s.n] in s.ring))
  }

  /** What the scheduler's walk needs: the ring is a cycle along `next`,
      the node after the executing thread is a member, and some member is
      a stop, so the walk ends within one lap. */
  ghost predicate WalkReady(s: Sched)
  {
    Shaped(s) && NextCycle(s.next, s.ring) && s.next[s.current] in s.ring &&
    exists k :: 0 <= k < |s.ring| && IsStop(s.next, s.state, s.ring[k])
  }

  /** A thread whose start routine returns is FINISHED with nobody running. */
  lemma ReturnIsFinishing(s: Sched)
    requires Live(s) && s.current < s.n
    ensures Finishing(s.(state := s.state[s.current := Finished]))
  {
    var f := s.(state := s.state[s.current := Finished]);
    forall v | v in f.ring && v != f.current ensures f.state[v] == Ready {
      assert s.state[v] == Ready;
    }
  }

  /** The first node of the scheduler's walk is the node after the thread
      left; it is a stop, so the walk ends there at once, and it lies alone
      in the ring exactly when it links to itself. */
  lemma FirstNodeIsStop(s: Sched)
    requires Schedulable(s)
    ensures WalkReady(s) && |s.ring| > 0
    ensures IsStop(s.next, s.state, s.next[s.current])
    ensures FirstStop(s.next, s.state, s.next[s.current], |s.ring|) == s.next[s.current]
    ensures s.next[s.next[s.current]] == s.next[s.current] <==> |s.ring| == 1
    ensures s.current < s.n ==> (s.next[s.current] == s.current <==> |s.ring| == 1)
  {
    var c := s.current;
    var f := s.next[c];
    if c < s.n {
      var kc :| 0 <= kc < |s.ring| && s.ring[kc] == c;
      assert s.next[s.ring[kc]] == s.ring[Succ(kc, |s.ring|)];
      SelfLoopIffAlone(s.next, s.ring, kc);
    }
    var kf :| 0 <= kf < |s.ring| && s.ring[kf] == f;
    SelfLoopIffAlone(s.next, s.ring, kf);
  }

  /** A ring with one member: every thread outside it is FINISHED. */
  lemma AloneIsOnlyUnfinished(s: Sched)
    requires RingOK(s) && |s.ring| == 1
    ensures forall i :: 0 <= i < s.n && i != s.ring[0] ==> s.state[i] == Finished
  {
    forall i | 0 <= i < s.n && i != s.ring[0] ensures s.state[i] == Finished {
      assert i !in s.ring;
    }
  }

  /** Leaving an unfinished thread for `x`, a member of the ring or the
      main thread, with the marker on `x`: the state stays live, and the
      ring, the stacks and the links are untouched. */
  lemma {:induction false} SaveKeepsLive(s: Sched, m: nat, x: nat)
    requires Live(s) && s.state[s.current] != Finished
    requires m <= s.n && x <= s.n && (x < s.n ==> x in s.ring && m == x)
    ensures var r := Switch(s.(marker := m), s.current, x);
      Live(r) && r.ring == s.ring && r.next == s.next && r.prev == s.prev &&
      r.stackLive == s.stackLive && r.frees == s.frees &&
      r.state == s.state[s.current := Ready][x := Running]
  {
    var r := Switch(s.(marker := m), s.current, x);
    forall v | v in r.ring && v != r.current ensures r.state[v] == Ready {
      if v != s.current {
        assert s.state[v] == Ready;
      }
    }
  }

  /** Switching away from the FINISHED executing thread: its stack is
      still held, so it is freed for the first time. */
  lemma DisposeEffect(s: Sched, m: nat, x: nat)
    requires Finishing(s) && m <= s.n && x <= s.n
    ensures var c := s.current; var r := Switch(s.(marker := m), c, x);
      r.stackLive == s.stackLive[c := false] && r.frees == s.frees[c := 1] &&
      r.next == s.next[s.prev[c] := s.next[c]] && r.prev == s.prev[s.next[c] := s.prev[c]] &&
      r.ring == Without(s.ring, c) && r.state == s.state[x := Running] &&
      r.current == x && r.marker == m && r.n == s.n
  {
    assert s.stackLive[s.current] && s.frees[s.current] == 0;
  }

  /** Taking the FINISHED executing thread out of the ring and freeing its
      stack keeps the ring bookkeeping. */
  lemma {:induction false} DisposedRingOK(s: Sched, r: Sched)
    requires Finishing(s) && Shaped(r) && r.n == s.n
    requires var c := s.current;
      r.stackLive == s.stackLive[c := false] && r.frees == s.frees[c := 1] &&
      r.next == s.next[s.prev[c] := s.next[c]] && r.prev == s.prev[s.next[c] := s.prev[c]] &&
      r.ring == Without(s.ring, c)
    requires forall i :: 0 <= i < r.n && !r.stackLive[i] ==> r.state[i] == Finished
    ensures RingOK(r)
  {
    var c := s.current;
    var k :| 0 <= k < |s.ring| && s.ring[k] == c;
    UnlinkKeepsCycle(s.next, s.prev, s.ring, k);
    forall i | 0 <= i < r.n ensures i in r.ring <==> r.stackLive[i] {
      if i != c {
        assert i in r.ring <==> i in s.ring;
      }
    }
  }

  /** Leaving a FINISHED thread for `x`, another member of the ring or the
      main thread, with the marker on `x`: the thread leaves the ring, its
      stack is freed once, and the state stays live. */
  lemma {:induction false} DisposeKeepsLive(s: Sched, m: nat, x: nat)
    requires Finishing(s)
    requires m <= s.n && x <= s.n && (x < s.n ==> x in s.ring && x != s.current && m == x)
    ensures var r := Switch(s.(marker := m), s.current, x);
      Live(r) && r.ring == Without(s.ring, s.current) &&
      r.stackLive == s.stackLive[s.current := false] &&
      r.frees == s.frees[s.current := 1] &&
      r.state == s.state[x := Running]
  {
    var c := s.current;
    DisposeEffect(s, m, x);
    var r := Switch(s.(marker := m), c, x);
    forall i | 0 <= i < r.n && !r.stackLive[i] ensures r.state[i] == Finished {
      if i != c {
        assert i != x;
      }
    }
    DisposedRingOK(s, r);
    forall v | v in r.ring && v != r.current ensures r.state[v] == Ready {
      assert v in s.ring && v != c;
    }
  }

  /** The state column right after `main` hands over: thread 0 RUNNING,
      the other threads READY, the main thread READY. */
  function Launched(n: nat): (r: seq<State>)
    requires n > 0
    ensures |r| == n + 1 && r[0] == Running && r[n] == Ready
    ensures forall i :: 0 < i < n ==> r[i] == Ready
  {
    seq(n + 1, i => if i == 0 then Running else Ready)
  }

  /** The state column after the main thread, RUNNING over a ring of READY
      threads, hands over to thread 0, or to itself. */
  lemma HandOver(st: seq<State>, n: nat, x: nat)
    requires n > 0 && |st| == n + 1 && st[n] == Running
    requires forall j :: 0 <= j < n ==> st[j] == Ready
    ensures x == 0 ==> st[n := Ready][x := Running] == Launched(n)
    ensures x == n ==> st[n := Ready][x := Running] == st
  {
    if x == 0 {
      assert forall i :: 0 <= i <= n ==> st[n := Ready][x := Running][i] == Launched(n)[i];
    }
  }

  /** The part of `main` the three versions share: create the threads in
      order and link them into a ring by the modular loop. */
  method Build(routines: seq<Routine>) returns (t: ThreadTable)
    requires |routines| > 0
    ensures fresh(t) && t.n == |routines| && t.WellFormed() && t.nextTID == t.n
    ensures forall i :: 0 <= i < t.n ==> t.tid[i] == i && t.start[i] == routines[i]
    ensures t.current == t.n && t.marker == t.n && t.ring == Iota(t.n)
    ensures Cycle(t.next, t.prev, t.ring)
    ensures forall i :: 0 <= i < t.n ==> t.next[i] == (i + 1) % t.n && t.prev[i] == (i + t.n - 1) % t.n
    ensures t.state[t.n] == Running
    ensures forall j :: 0 <= j < t.n ==> t.state[j] == Ready && t.stackLive[j] && t.frees[j] == 0
  {
    t := new ThreadTable(|routines|);
    for i := 0 to t.n
      invariant t.WellFormed() && t.nextTID == i && t.n == |routines|
      invariant t.current == t.n && t.marker == t.n && t.state[t.n] == Running && t.ring == []
      invariant forall j :: 0 <= j < i ==> t.tid[j] == j && t.start[j] == routines[j]
      invariant forall j :: 0 <= j < i ==> t.state[j] == Ready && t.stackLive[j]
      invariant forall j :: 0 <= j < t.n ==> t.frees[j] == 0
      invariant forall j :: i <= j < t.n ==> !t.stackLive[j]
    {
      var id := t.CreateThread(routines[i]);
    }
    t.LinkRing();
  }

  /** `mainThread->next = thread3[0]` on a freshly built table: the state
      is live, and the first node of a walk from the main thread is
      thread 0. */
  method PointMainAtFirst(t: ThreadTable)
    requires t.WellFormed() && t.n > 0 && t.current == t.n && t.ring == Iota(t.n)
    requires Cycle(t.next, t.prev, t.ring) && t.state[t.n] == Running
    requires forall j :: 0 <= j < t.n ==> t.state[j] == Ready && t.stackLive[j] && t.frees[j] == 0
    modifies t`next
    ensures t.WellFormed() && t.next == old(t.next)[t.n := 0]
    ensures Live(t.View()) && t.next[t.n] in t.ring && t.next[t.n] == 0
  {
    RelinkOutside(t.next, t.prev, t.ring, t.n, 0);
    t.next := t.next[t.n := 0];
    Launchable(t.View());
  }

  /** A freshly built table, with every thread READY in the ring
      0 .. n-1 and the main thread RUNNING, is live. */
  lemma Launchable(s: Sched)
    requires Shaped(s) && s.n > 0 && s.current == s.n && s.state[s.n] == Running
    requires s.ring == Iota(s.n) && Cycle(s.next, s.prev, s.ring)
    requires forall j :: 0 <= j < s.n ==> s.state[j] == Ready && s.stackLive[j] && s.frees[j] == 0
    ensures Live(s) && 0 in s.ring
  {
    forall i | 0 <= i < s.n ensures i in s.ring {
      assert s.ring[i] == i;
    }
  }
}
