/** Threads that bind sessions without a lock: each takes the minimum, and then increments it. */
module ConnectorRuns {
  import opened Wrappers
  import opened ConnectorGroups

  /** The loads, what each thread has chosen but not yet incremented, and the number of finished bindings. */
  datatype System = System(load: seq<int>, chosen: seq<Option<nat>>, done: nat)

  function Zeros(n: nat): (r: seq<int>)
    ensures |r| == n && forall i :: 0 <= i < n ==> r[i] == 0
  {
    seq(n, _ => 0)
  }

  function Nones(n: nat): (r: seq<Option<nat>>)
    ensures |r| == n && forall i :: 0 <= i < n ==> r[i] == None
  {
    seq(n, _ => None)
  }

  predicate Init(s: System, connectors: nat, threads: nat) {
    s == System(Zeros(connectors), Nones(threads), 0)
  }

  /** Thread t reads all loads and takes the first minimum. */
  predicate Choose(s: System, t: nat, u: System) {
    && t < |s.chosen| && s.chosen[t] == None && s.load != []
    && u == s.(chosen := s.chosen[t := Some(FirstMin(s.load))])
  }

  /** Thread t increments the load of what it has chosen. */
  predicate Increment(s: System, t: nat, u: System) {
    && t < |s.chosen| && s.chosen[t].Some? && s.chosen[t].value < |s.load|
    && u == System(Bumped(s.load, s.chosen[t].value), s.chosen[t := None], s.done + 1)
  }

  ghost predicate Step(s: System, u: System) {
    exists t: nat :: Choose(s, t, u) || Increment(s, t, u)
  }

  /** Any interleaving of any number of bindings. */
  ghost predicate Run(run: seq<System>, connectors: nat, threads: nat) {
    && run != [] && Init(run[0], connectors, threads)
    && forall i :: 0 <= i < |run| - 1 ==> Step(run[i], run[i + 1])
  }

  // ----- what every step keeps -----

  function Total(loads: seq<int>): int {
    if loads == [] then 0 else loads[0] + Total(loads[1..])
  }

  /** How many threads are about to increment a connector. */
  function Pending(chosen: seq<Option<nat>>, c: nat): nat {
    if chosen == [] then 0 else (if chosen[0] == Some(c) then 1 else 0) + Pending(chosen[1..], c)
  }

  function Least(loads: seq<int>): int
    requires loads != []
  {
    loads[FirstMin(loads)]
  }

  ghost predicate Inv(s: System, connectors: nat, threads: nat) {
    && |s.load| == connectors && |s.chosen| == threads
    && (forall t :: 0 <= t < threads && s.chosen[t].Some? ==> s.chosen[t].value < connectors)
    && Total(s.load) == s.done
    && forall c :: 0 <= c < connectors ==> 0 <= s.load[c] && s.load[c] + Pending(s.chosen, c) <= Least(s.load) + threads
  }

  lemma {:induction false} PendingUpdate(chosen: seq<Option<nat>>, t: nat, x: Option<nat>, c: nat)
    requires t < |chosen|
    ensures Pending(chosen[t := x], c)
      == Pending(chosen, c) - (if chosen[t] == Some(c) then 1 else 0) + (if x == Some(c) then 1 else 0)
  {
    if t > 0 {
      PendingUpdate(chosen[1..], t - 1, x, c);
      assert chosen[t := x][1..] == chosen[1..][t - 1 := x];
    } else {
      assert chosen[t := x][1..] == chosen[1..];
    }
  }

  lemma {:induction false} PendingBound(chosen: seq<Option<nat>>, c: nat)
    ensures Pending(chosen, c) <= |chosen|
    ensures (forall t :: 0 <= t < |chosen| ==> chosen[t] == None) ==> Pending(chosen, c) == 0
  {
    if chosen != [] {
      PendingBound(chosen[1..], c);
    }
  }

  lemma {:induction false} TotalUpdate(loads: seq<int>, i: nat, x: int)
    requires i < |loads|
    ensures Total(loads[i := x]) == Total(loads) - loads[i] + x
  {
    if i > 0 {
      TotalUpdate(loads[1..], i - 1, x);
      assert loads[i := x][1..] == loads[1..][i - 1 := x];
    } else {
      assert loads[i := x][1..] == loads[1..];
    }
  }

  lemma {:induction false} TotalZeros(n: nat)
    ensures Total(Zeros(n)) == 0
  {
    if n > 0 {
      assert Zeros(n)[1..] == Zeros(n - 1);
      TotalZeros(n - 1);
    }
  }

  lemma InvInit(s: System, connectors: nat, threads: nat)
    requires Init(s, connectors, threads)
    ensures Inv(s, connectors, threads)
  {
    TotalZeros(connectors);
    forall c | 0 <= c < connectors
      ensures 0 <= s.load[c] && s.load[c] + Pending(s.chosen, c) <= Least(s.load) + threads
    {
      PendingBound(s.chosen, c);
    }
  }

  lemma ChooseKeeps(s: System, t: nat, u: System, connectors: nat, threads: nat)
    requires Inv(s, connectors, threads) && Choose(s, t, u)
    ensures Inv(u, connectors, threads)
  {
    var m := FirstMin(s.load);
    forall c | 0 <= c < connectors
      ensures 0 <= u.load[c] && u.load[c] + Pending(u.chosen, c) <= Least(u.load) + threads
    {
      PendingUpdate(s.chosen, t, Some(m), c);
      PendingBound(u.chosen, c);
    }
  }

  lemma IncrementKeeps(s: System, t: nat, u: System, connectors: nat, threads: nat)
    requires Inv(s, connectors, threads) && Increment(s, t, u)
    ensures Inv(u, connectors, threads)
  {
    var i := s.chosen[t].value;
    TotalUpdate(s.load, i, s.load[i] + 1);
    assert Least(s.load) <= Least(u.load);
    forall c | 0 <= c < connectors
      ensures 0 <= u.load[c] && u.load[c] + Pending(u.chosen, c) <= Least(u.load) + threads
    {
      PendingUpdate(s.chosen, t, None, c);
    }
  }

  lemma {:induction false} InvRun(run: seq<System>, connectors: nat, threads: nat, k: nat)
    requires Run(run, connectors, threads) && k < |run|
    ensures Inv(run[k], connectors, threads)
  {
    if k == 0 {
      InvInit(run[0], connectors, threads);
    } else {
      InvRun(run, connectors, threads, k - 1);
      var s, u := run[k - 1], run[k];
      assert Step(run[k - 1], run[k - 1 + 1]);
      var t: nat :| Choose(s, t, u) || Increment(s, t, u);
      if Choose(s, t, u) {
        ChooseKeeps(s, t, u, connectors, threads);
      } else {
        IncrementKeeps(s, t, u, connectors, threads);
      }
    }
  }

  // ----- the bound -----

  /** In every reachable state no two loads differ by more than the number of threads, and the loads add up
      to the finished bindings. */
  lemma SpreadBound(run: seq<System>, connectors: nat, threads: nat, k: nat, a: nat, b: nat)
    requires Run(run, connectors, threads) && k < |run| && a < connectors && b < connectors
    ensures |run[k].load| == connectors && Total(run[k].load) == run[k].done
    ensures run[k].load[a] - run[k].load[b] <= threads
  {
    InvRun(run, connectors, threads, k);
  }

  lemma RunMore(run: seq<System>, connectors: nat, threads: nat, u: System, v: System)
    requires Run(run, connectors, threads) && Step(run[|run| - 1], u) && Step(u, v)
    ensures Run(run + [u, v], connectors, threads)
  {
    var more := run + [u, v];
    forall i | 0 <= i < |more| - 1 ensures Step(more[i], more[i + 1]) {
      assert i < |run| - 1 ==> Step(run[i], run[i + 1]);
    }
  }

  /** Calls of getBinding, one after the other, on fresh active connectors: they are a run of one thread, so
      the loads never differ by more than one. */
  method BindTimes(group: ConnectorGroup, times: nat)
    requires group.connections != [] && Separate(group.connections)
    requires forall c :: c in group.connections ==> c.active && c.attachment.managedSession == 0
    modifies group.Attachments()
    ensures exists run: seq<System> :: Run(run, |group.connections|, 1) && run[|run| - 1].load == group.Loads()
    ensures Total(group.Loads()) == times
    ensures forall a, b :: 0 <= a < |group.connections| && 0 <= b < |group.connections| ==>
      group.Loads()[a] - group.Loads()[b] <= 1
  {
    ghost var n := |group.connections|;
    ghost var run := [System(Zeros(n), Nones(1), 0)];
    assert group.Loads() == Zeros(n);
    for i := 0 to times
      invariant Run(run, n, 1)
      invariant run[|run| - 1] == System(group.Loads(), Nones(1), i)
    {
      ghost var s := run[|run| - 1];
      label Before:
      var best := group.GetBinding();
      group.OneLoadGrows@Before(best);
      ghost var u := s.(chosen := s.chosen[0 := Some(FirstMin(s.load))]);
      ghost var v := System(group.Loads(), Nones(1), i + 1);
      assert Choose(s, 0, u);
      assert u.chosen[0 := None] == Nones(1);
      assert Increment(u, 0, v);
      RunMore(run, n, 1, u, v);
      run := run + [u, v];
    }
    forall a, b | 0 <= a < n && 0 <= b < n ensures group.Loads()[a] - group.Loads()[b] <= 1 {
      SpreadBound(run, n, 1, |run| - 1, a, b);
    }
    SpreadBound(run, n, 1, |run| - 1, 0, 0);
  }

  // ----- the bound is reached -----

  /** The state in which the first k threads have chosen the first connector. */
  function AllChoosing(connectors: nat, threads: nat, k: nat): System
    requires k <= threads
  {
    System(Zeros(connectors), seq(threads, t requires 0 <= t < threads => if t < k then Some(0) else None), 0)
  }

  function Incrementing(connectors: nat, threads: nat, k: nat): System
    requires k <= threads && connectors > 0
  {
    System(Zeros(connectors)[0 := k], seq(threads, t requires 0 <= t < threads => if t < k then None else Some(0)), k)
  }

  lemma ChooseFirst(connectors: nat, threads: nat, k: nat)
    requires k < threads && connectors > 0
    ensures Step(AllChoosing(connectors, threads, k), AllChoosing(connectors, threads, k + 1))
  {
    var s, u := AllChoosing(connectors, threads, k), AllChoosing(connectors, threads, k + 1);
    assert s.load[FirstMin(s.load)] == s.load[0];
    assert FirstMin(s.load) == 0;
    assert u.chosen == s.chosen[k := Some(0)];
    assert Choose(s, k, u);
  }

  lemma IncrementFirst(connectors: nat, threads: nat, k: nat)
    requires k < threads && connectors > 0
    ensures Step(Incrementing(connectors, threads, k), Incrementing(connectors, threads, k + 1))
  {
    var s, u := Incrementing(connectors, threads, k), Incrementing(connectors, threads, k + 1);
    assert u.chosen == s.chosen[k := None] && u.load == Bumped(s.load, 0);
    assert Increment(s, k, u);
  }

  /** With two connectors or more, some run of T threads drives two loads T apart. */
  lemma SpreadReached(connectors: nat, threads: nat) returns (run: seq<System>)
    requires connectors >= 2
    ensures Run(run, connectors, threads)
    ensures var last := run[|run| - 1]; |last.load| == connectors && last.load[0] - last.load[1] == threads
  {
    run := seq(threads + 1, k requires 0 <= k <= threads => AllChoosing(connectors, threads, k))
      + seq(threads, k requires 0 <= k < threads => Incrementing(connectors, threads, k + 1));
    assert AllChoosing(connectors, threads, 0) == System(Zeros(connectors), Nones(threads), 0);
    Meets(connectors, threads);
    forall i | 0 <= i < |run| - 1 ensures Step(run[i], run[i + 1]) {
      if i < threads {
        ChooseFirst(connectors, threads, i);
      } else {
        IncrementFirst(connectors, threads, i - threads);
      }
    }
    if threads == 0 {
      assert run[|run| - 1] == AllChoosing(connectors, threads, 0);
    }
  }

  lemma Meets(connectors: nat, threads: nat)
    requires connectors > 0
    ensures AllChoosing(connectors, threads, threads) == Incrementing(connectors, threads, 0)
  {
    assert Zeros(connectors)[0 := 0] == Zeros(connectors);
    assert AllChoosing(connectors, threads, threads).chosen == Incrementing(connectors, threads, 0).chosen;
  }
}
