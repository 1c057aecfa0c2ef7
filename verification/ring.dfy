/** The circular doubly-linked ring that threads the thread table together.
    A ring is described by the sequence of its members in `next` order;
    `next` and `prev` are the link fields of the whole table, indexed by
    thread slot. */
module Ring {

  /** The position after `k` in a ring of `m` positions. */
  function Succ(k: nat, m: nat): (r: nat)
    requires k < m
    ensures r < m
  {
    if k + 1 < m then k + 1 else 0
  }

  /** Number of forward steps from position `a` to position `b`. */
  function Dist(a: nat, b: nat, m: nat): (d: nat)
    requires a < m && b < m
    ensures d < m
    ensures d == 0 <==> a == b
  {
    if a <= b then b - a else b + m - a
  }

  ghost predicate Distinct(s: seq<nat>)
  {
    forall i, j :: 0 <= i < j < |s| ==> s[i] != s[j]
  }

  /** Every link points at a slot of the table. */
  ghost predicate Closed(links: seq<nat>)
  {
    forall i :: 0 <= i < |links| ==> links[i] < |links|
  }

  /** Every member of `ring` is a slot of `links`. */
  ghost predicate Members(links: seq<nat>, ring: seq<nat>)
  {
    forall k :: 0 <= k < |ring| ==> ring[k] < |links|
  }

  ghost predicate NextCycle(next: seq<nat>, ring: seq<nat>)
  {
    Members(next, ring) &&
    forall k :: 0 <= k < |ring| ==> next[ring[k]] == ring[Succ(k, |ring|)]
  }

  ghost predicate PrevCycle(prev: seq<nat>, ring: seq<nat>)
  {
    Members(prev, ring) &&
    forall k :: 0 <= k < |ring| ==> prev[ring[Succ(k, |ring|)]] == ring[k]
  }

  /** `ring` is one closed cycle: following `next` from a member visits the
      members in order and comes back, and `prev` walks it backwards. */
  ghost predicate Cycle(next: seq<nat>, prev: seq<nat>, ring: seq<nat>)
  {
    Distinct(ring) && NextCycle(next, ring) && PrevCycle(prev, ring)
  }

  /** The slot reached from `s` after `k` steps along `next`. */
  function Iter(next: seq<nat>, s: nat, k: nat): (r: nat)
    requires Closed(next) && s < |next|
    ensures r < |next|
  {
    if k == 0 then s else next[Iter(next, s, k - 1)]
  }

  /** The slots 0 .. n-1 in order: the ring as `main` builds it. */
  function Iota(n: nat): (r: seq<nat>)
    ensures |r| == n && forall i :: 0 <= i < n ==> r[i] == i
  {
    seq(n, i => i)
  }

  /** `s` with every occurrence of `x` taken out. */
  function Without(s: seq<nat>, x: nat): (r: seq<nat>)
    ensures x !in r
    ensures forall y :: y in r <==> y in s && y != x
  {
    if s == [] then [] else (if s[0] == x then [] else [s[0]]) + Without(s[1..], x)
  }

  lemma {:induction false} WithoutAbsent(s: seq<nat>, x: nat)
    requires x !in s
    ensures Without(s, x) == s
  {
    if s != [] {
      WithoutAbsent(s[1..], x);
    }
  }

  /** Removing a member of a duplicate-free sequence cuts out its one position. */
  lemma {:induction false} WithoutAt(s: seq<nat>, k: nat)
    requires Distinct(s) && k < |s|
    ensures Without(s, s[k]) == s[..k] + s[k + 1..]
  {
    if k == 0 {
      assert s[0] !in s[1..] by {
        forall j | 0 <= j < |s[1..]| ensures s[1..][j] != s[0] {
          assert s[1..][j] == s[j + 1];
        }
      }
      WithoutAbsent(s[1..], s[0]);
    } else {
      assert Distinct(s[1..]) by {
        forall i, j | 0 <= i < j < |s[1..]| ensures s[1..][i] != s[1..][j] {
          assert s[1..][i] == s[i + 1] && s[1..][j] == s[j + 1];
        }
      }
      WithoutAt(s[1..], k - 1);
      assert s[1..][k - 1] == s[k];
      assert s[1..][..k - 1] + s[1..][k..] == s[1..k] + s[k + 1..];
      assert [s[0]] + s[1..k] == s[..k];
    }
  }

  /** The position `k` steps after position `i` in a ring of `m` positions. */
  function Ahead(i: nat, k: nat, m: nat): (r: nat)
    requires i < m
    ensures r < m
  {
    if k == 0 then i else Succ(Ahead(i, k - 1, m), m)
  }

  /** Within one lap, stepping forward wraps around at most once. */
  lemma {:induction false} AheadWithinLap(i: nat, k: nat, m: nat)
    requires i < m && k <= m
    ensures Ahead(i, k, m) == if i + k < m then i + k else i + k - m
  {
    if k > 0 {
      AheadWithinLap(i, k - 1, m);
    }
  }

  /** Following `next` from a member for `k` steps lands `k` positions further on. */
  lemma {:induction false} IterAlongRing(next: seq<nat>, ring: seq<nat>, i: nat, k: nat)
    requires Closed(next) && NextCycle(next, ring) && i < |ring|
    ensures Iter(next, ring[i], k) == ring[Ahead(i, k, |ring|)]
  {
    if k > 0 {
      IterAlongRing(next, ring, i, k - 1);
    }
  }

  /** A full lap of `|ring|` steps returns every member to itself. */
  lemma LapReturns(next: seq<nat>, ring: seq<nat>, i: nat)
    requires Closed(next) && NextCycle(next, ring) && i < |ring|
    ensures Iter(next, ring[i], |ring|) == ring[i]
  {
    IterAlongRing(next, ring, i, |ring|);
    AheadWithinLap(i, |ring|, |ring|);
  }

  /** On the ring `prev` undoes `next` and `next` undoes `prev`. */
  lemma LinksInverse(next: seq<nat>, prev: seq<nat>, ring: seq<nat>, k: nat)
    requires Cycle(next, prev, ring) && k < |ring|
    ensures next[ring[k]] < |prev| && prev[next[ring[k]]] == ring[k]
    ensures prev[ring[k]] < |next| && next[prev[ring[k]]] == ring[k]
  {
    var m := |ring|;
    var pk := if k == 0 then m - 1 else k - 1;
    assert Succ(pk, m) == k;
    assert prev[ring[Succ(pk, m)]] == ring[pk];
    assert next[ring[pk]] == ring[Succ(pk, m)];
  }

  /** A member links to itself exactly when it is the only member. */
  lemma SelfLoopIffAlone(next: seq<nat>, ring: seq<nat>, k: nat)
    requires Distinct(ring) && NextCycle(next, ring) && k < |ring|
    ensures next[ring[k]] == ring[k] <==> |ring| == 1
  {
    var s := Succ(k, |ring|);
    if |ring| > 1 {
      assert s != k;
      if s < k { assert ring[s] != ring[k]; } else { assert ring[k] != ring[s]; }
    }
  }

  lemma ModNeighbours(t: nat, n: nat)
    requires t < n
    ensures (t + 1) % n == (if t + 1 < n then t + 1 else 0)
    ensures (t + n - 1) % n == (if t > 0 then t - 1 else n - 1)
  {
    if t > 0 {
      assert t + n - 1 == n + (t - 1);
    }
  }

  /** Linking slot t to (t + n - 1) % n and (t + 1) % n closes the slots
      0 .. n-1 into one cycle. */
  lemma ModularLinksCycle(next: seq<nat>, prev: seq<nat>, n: nat)
    requires n <= |next| && n <= |prev|
    requires forall t :: 0 <= t < n ==> next[t] == (t + 1) % n && prev[t] == (t + n - 1) % n
    ensures Cycle(next, prev, Iota(n))
  {
    var r := Iota(n);
    forall k | 0 <= k < n
      ensures next[r[k]] == r[Succ(k, n)] && prev[r[Succ(k, n)]] == r[k]
    {
      ModNeighbours(k, n);
      ModNeighbours(Succ(k, n), n);
    }
  }

  /** Cutting one position out of a duplicate-free sequence keeps it duplicate-free. */
  lemma CutDistinct(ring: seq<nat>, k: nat)
    requires Distinct(ring) && k < |ring|
    ensures Distinct(ring[..k] + ring[k + 1..])
  {
    var r := ring[..k] + ring[k + 1..];
    forall i, j | 0 <= i < j < |r| ensures r[i] != r[j] {
      var ii := if i < k then i else i + 1;
      var jj := if j < k then j else j + 1;
      assert r[i] == ring[ii] && r[j] == ring[jj] && ii < jj;
    }
  }

  /** Position `j` of the cut sequence is position `j` or `j + 1` of the original. */
  lemma CutAt(ring: seq<nat>, k: nat, j: nat)
    requires k < |ring| && j < |ring| - 1
    ensures (ring[..k] + ring[k + 1..])[j] == if j < k then ring[j] else ring[j + 1]
  {
  }

  /** Where the member at position `k` is cut out, its predecessor is followed by its successor. */
  lemma CutSucc(m: nat, k: nat, j: nat)
    requires 2 <= m && k < m && j < m - 1
    ensures
      var jj := if j < k then j else j + 1;
      var sj := Succ(j, m - 1);
      var sjj := if sj < k then sj else sj + 1;
      var pk := if k == 0 then m - 1 else k - 1;
      (jj == pk ==> sjj == Succ(k, m)) && (jj != pk ==> Succ(jj, m) == sjj)
  {
  }

  /** After the member at position `k` is unlinked, position `j` of what
      is left still links forward to its successor. */
  lemma UnlinkNextAt(next: seq<nat>, ring: seq<nat>, k: nat, j: nat, p: nat, s: nat)
    requires Distinct(ring) && NextCycle(next, ring) && 2 <= |ring| && k < |ring| && j < |ring| - 1
    requires p == ring[if k == 0 then |ring| - 1 else k - 1] && s == ring[Succ(k, |ring|)]
    ensures
      var r := ring[..k] + ring[k + 1..];
      r[j] < |next| && next[p := s][r[j]] == r[Succ(j, |r|)]
  {
    var m := |ring|;
    var pk := if k == 0 then m - 1 else k - 1;
    var jj := if j < k then j else j + 1;
    CutAt(ring, k, j);
    CutAt(ring, k, Succ(j, m - 1));
    CutSucc(m, k, j);
    if jj != pk {
      assert ring[jj] != ring[pk] by {
        if jj < pk { assert ring[jj] != ring[pk]; } else { assert ring[pk] != ring[jj]; }
      }
      assert next[ring[jj]] == ring[Succ(jj, m)];
    }
  }

  lemma UnlinkNext(next: seq<nat>, prev: seq<nat>, ring: seq<nat>, k: nat)
    requires Cycle(next, prev, ring) && 2 <= |ring| && k < |ring|
    requires Closed(prev) && |next| == |prev|
    ensures
      var c := ring[k];
      NextCycle(next[prev[c] := next[c]], ring[..k] + ring[k + 1..])
  {
    var c := ring[k];
    var r := ring[..k] + ring[k + 1..];
    var m := |ring|;
    var pk := if k == 0 then m - 1 else k - 1;
    LinksInverse(next, prev, ring, k);
    assert Succ(pk, m) == k;
    assert prev[c] == ring[pk] && next[c] == ring[Succ(k, m)];
    forall j | 0 <= j < |r|
      ensures r[j] < |next[prev[c] := next[c]]| && next[prev[c] := next[c]][r[j]] == r[Succ(j, |r|)]
    {
      UnlinkNextAt(next, ring, k, j, prev[c], next[c]);
    }
  }

  /** After the member at position `k` is unlinked, the successor of
      position `j` of what is left still links back to it. */
  lemma UnlinkPrevAt(prev: seq<nat>, ring: seq<nat>, k: nat, j: nat, p: nat, s: nat)
    requires Distinct(ring) && PrevCycle(prev, ring) && 2 <= |ring| && k < |ring| && j < |ring| - 1
    requires p == ring[if k == 0 then |ring| - 1 else k - 1] && s == ring[Succ(k, |ring|)]
    ensures
      var r := ring[..k] + ring[k + 1..];
      r[Succ(j, |r|)] < |prev| && prev[s := p][r[Succ(j, |r|)]] == r[j]
  {
    var m := |ring|;
    var pk := if k == 0 then m - 1 else k - 1;
    var sk := Succ(k, m);
    var jj := if j < k then j else j + 1;
    var sj := Succ(j, m - 1);
    var sjj := if sj < k then sj else sj + 1;
    CutAt(ring, k, j);
    CutAt(ring, k, sj);
    CutSucc(m, k, j);
    if jj != pk {
      assert sjj != sk;
      assert ring[sjj] != ring[sk] by {
        if sjj < sk { assert ring[sjj] != ring[sk]; } else { assert ring[sk] != ring[sjj]; }
      }
      assert prev[ring[Succ(jj, m)]] == ring[jj];
    }
  }

  lemma UnlinkPrev(next: seq<nat>, prev: seq<nat>, ring: seq<nat>, k: nat)
    requires Cycle(next, prev, ring) && 2 <= |ring| && k < |ring|
    requires Closed(next) && |next| == |prev|
    ensures
      var c := ring[k];
      PrevCycle(prev[next[c] := prev[c]], ring[..k] + ring[k + 1..])
  {
    var c := ring[k];
    var r := ring[..k] + ring[k + 1..];
    var m := |ring|;
    var pk := if k == 0 then m - 1 else k - 1;
    LinksInverse(next, prev, ring, k);
    assert Succ(pk, m) == k;
    assert prev[c] == ring[pk] && next[c] == ring[Succ(k, m)];
    forall j | 0 <= j < |r|
      ensures r[Succ(j, |r|)] < |prev[next[c] := prev[c]]| && prev[next[c] := prev[c]][r[Succ(j, |r|)]] == r[j]
    {
      UnlinkPrevAt(prev, ring, k, j, prev[c], next[c]);
    }
    assert Members(prev[next[c] := prev[c]], r) by {
      forall j | 0 <= j < |r| ensures r[j] < |prev| {
        CutAt(ring, k, j);
      }
    }
  }

  /** Unlinking a member (its `prev` neighbour's `next` and its `next`
      neighbour's `prev` are pointed at each other) leaves the other members
      one closed cycle. */
  lemma UnlinkKeepsCycle(next: seq<nat>, prev: seq<nat>, ring: seq<nat>, k: nat)
    requires Cycle(next, prev, ring) && k < |ring|
    requires Closed(next) && Closed(prev) && |next| == |prev|
    ensures
      var c := ring[k];
      Cycle(next[prev[c] := next[c]], prev[next[c] := prev[c]], Without(ring, c))
  {
    WithoutAt(ring, k);
    if |ring| == 1 {
      assert ring[..k] + ring[k + 1..] == [];
    } else {
      CutDistinct(ring, k);
      UnlinkNext(next, prev, ring, k);
      UnlinkPrev(next, prev, ring, k);
    }
  }

  /** Re-pointing the `next` link of a slot outside the ring leaves the
      ring one closed cycle. */
  lemma RelinkOutside(next: seq<nat>, prev: seq<nat>, ring: seq<nat>, v: nat, y: nat)
    requires Cycle(next, prev, ring) && v < |next| && v !in ring
    ensures Cycle(next[v := y], prev, ring)
  {
    forall k | 0 <= k < |ring| ensures next[v := y][ring[k]] == ring[Succ(k, |ring|)] {
      assert ring[k] != v;
    }
  }

  /** Following `next` from position `i` for as many steps as position `j`
      is ahead reaches the member at `j`. */
  lemma LapReaches(next: seq<nat>, ring: seq<nat>, i: nat, j: nat)
    requires Closed(next) && NextCycle(next, ring) && i < |ring| && j < |ring|
    ensures Iter(next, ring[i], Dist(i, j, |ring|)) == ring[j]
  {
    IterAlongRing(next, ring, i, Dist(i, j, |ring|));
    AheadWithinLap(i, Dist(i, j, |ring|), |ring|);
  }
}
