/** kern/sched.c: the circular search of sched_yield, and what round robin promises. */
module Sched {
  import opened Options
  import opened Kernel
  import opened KernelInv

  /** sched_yield's loop: the slot to run, or None when no slot is runnable. */
  method FindRunnable(envs: seq<Env>, cur: Option<nat>) returns (slot: Option<nat>)
    requires |envs| > 0 && (cur.Some? ==> cur.value < |envs|)
    ensures var start := if cur.Some? then (cur.value + 1) % |envs| else 0;
      var j := Search(envs, start, 0);
      slot == if j < |envs| then Some(Slot(|envs|, start, j)) else None
  {
    var n := |envs|;
    var at := if cur.Some? then (cur.value + 1) % n else 0;
    ghost var start := at;
    var j := 0;
    while j < n
      invariant 0 <= j <= n
      invariant at == Slot(n, start, j)
      invariant Search(envs, start, 0) == Search(envs, start, j)
    {
      if envs[at].status == Runnable {
        break;
      }
      ModSmall(n, at + 1);
      at := (at + 1) % n;
      j := j + 1;
    }
    // the source tests the slot once more; after a full turn it is the first one again
    assert j == n ==> at == Slot(n, start, 0);
    slot := if envs[at].status == Runnable then Some(at) else None;
  }

  lemma ModSmall(n: nat, x: nat)
    requires 0 < n && x < 2 * n
    ensures x % n == if x < n then x else x - n
  {
    assert x == (x / n) * n + x % n;
    if x < n {
      assert x / n == 0;
    } else {
      assert x / n == 1;
    }
  }

  // ----- bounded waiting -----

  /** How many slots lie strictly between p and e, going round. */
  function Distance(n: nat, p: nat, e: nat): (d: nat)
    requires p < n && e < n
    ensures d < n
  {
    if e > p then e - p - 1 else e - p - 1 + n
  }

  /** The slot sched_yield picks when slot p was the last to run. */
  predicate Picks(envs: seq<Env>, p: nat, q: nat)
    requires p < |envs|
  {
    var start := (p + 1) % |envs|;
    Search(envs, start, 0) < |envs| && q == Slot(|envs|, start, Search(envs, start, 0))
  }

  /** A runnable environment that is passed over has come strictly nearer. */
  lemma PassedOverIsNearer(envs: seq<Env>, p: nat, q: nat, e: nat)
    requires p < |envs| && e < |envs| && envs[e].status == Runnable && Picks(envs, p, q) && q != e
    ensures q < |envs| && Distance(|envs|, q, e) < Distance(|envs|, p, e)
  {
    var n, start := |envs|, (p + 1) % |envs|;
    ModSmall(n, p + 1);
    var d := Distance(n, p, e);
    assert Slot(n, start, d) == e;
    assert Search(envs, start, 0) <= d;
  }

  /** e is not among the first m picks. */
  predicate NotYet(picks: seq<nat>, e: nat, m: nat)
    requires m < |picks|
  {
    forall i :: 0 < i <= m ==> picks[i] != e
  }

  /** Bounded waiting: of NENV consecutive picks on one CPU, taken in states
      that may differ arbitrarily except that e stays runnable until it is
      picked, one picks e. tables[i] is envs[] at the i-th pick and
      picks[i] -> picks[i + 1] is that pick. */
  lemma {:induction false} BoundedWaiting(n: nat, tables: seq<seq<Env>>, picks: seq<nat>, e: nat)
    requires |tables| == n && |picks| == n + 1 && e < n && picks[0] < n
    requires forall i :: 0 <= i < n ==> |tables[i]| == n
    requires forall i :: 0 <= i < n && NotYet(picks, e, i) ==> tables[i][e].status == Runnable
    requires forall i {:trigger tables[i]} :: 0 <= i < n && picks[i] < n ==> Picks(tables[i], picks[i], picks[i + 1])
    ensures exists i :: 0 < i <= n && picks[i] == e
  {
    if NotYet(picks, e, n) {
      Approach(n, tables, picks, e, n);
    }
  }

  lemma {:induction false} Approach(n: nat, tables: seq<seq<Env>>, picks: seq<nat>, e: nat, m: nat)
    requires |tables| == n && |picks| == n + 1 && e < n && picks[0] < n && m <= n
    requires forall i :: 0 <= i < n ==> |tables[i]| == n
    requires forall i :: 0 <= i < n && NotYet(picks, e, i) ==> tables[i][e].status == Runnable
    requires forall i {:trigger tables[i]} :: 0 <= i < n && picks[i] < n ==> Picks(tables[i], picks[i], picks[i + 1])
    requires NotYet(picks, e, m)
    ensures picks[m] < n && Distance(n, picks[m], e) + m <= Distance(n, picks[0], e)
  {
    if m > 0 {
      Approach(n, tables, picks, e, m - 1);
      PassedOverIsNearer(tables[m - 1], picks[m - 1], picks[m], e);
    }
  }

  // ----- what sched_yield and the end of trap() do -----

  predicate Ready(st: Status) {
    st == Runnable || st == Running
  }

  /** How far round slot e is, from the environment that CPU c has; from slot 0 if it has none. */
  function Turns(k: K, c: nat, e: nat): nat
    requires c < |k.cur| && e < |k.envs| && (k.cur[c].Some? ==> k.cur[c].value < |k.envs|)
  {
    if k.cur[c].Some? then Distance(|k.envs|, k.cur[c].value, e) else e
  }

  /** Environment q goes on CPU c: it is running; the environment switched out, if it was running, is
      runnable; nothing else about any environment and nothing about any other CPU has changed. */
  predicate Switched(k: K, c: nat, q: nat, k': K)
    requires c < |k.cur| && q < |k.envs|
  {
    && k'.cur == k.cur[c := Some(q)] && |k'.envs| == |k.envs|
    && forall e :: 0 <= e < |k.envs| ==>
         k'.envs[e] == k.envs[e].(status :=
           if e == q then Running
           else if k.cur[c] == Some(e) && k.envs[e].status == Running then Runnable
           else k.envs[e].status)
  }

  predicate SomeRunnable(k: K) {
    exists e :: 0 <= e < |k.envs| && k.envs[e].status == Runnable
  }

  /** q is the runnable slot next round. */
  predicate IsNext(k: K, c: nat, q: nat)
    requires c < |k.cur| && (k.cur[c].Some? ==> k.cur[c].value < |k.envs|)
  {
    && q < |k.envs| && k.envs[q].status == Runnable
    && forall e :: 0 <= e < |k.envs| && k.envs[e].status == Runnable ==> Turns(k, c, q) <= Turns(k, c, e)
  }

  lemma EnvRunSwitches(k: K, c: nat, q: nat)
    requires c < |k.cur| && q < |k.envs| && (k.cur[c].Some? ==> k.cur[c].value < |k.envs|)
    ensures Switched(k, c, q, EnvRun(k, c, q))
  {
  }

  /** The search from slot `start` meets slot e after as many turns as it lies away. */
  lemma SlotTurns(k: K, c: nat, e: nat)
    requires c < |k.cur| && e < |k.envs| && (k.cur[c].Some? ==> k.cur[c].value < |k.envs|)
    ensures Slot(|k.envs|, Start(k, c), Turns(k, c, e)) == e
    ensures forall j: nat :: j < |k.envs| && Slot(|k.envs|, Start(k, c), j) == e ==> j == Turns(k, c, e)
  {
    if k.cur[c].Some? {
      ModSmall(|k.envs|, k.cur[c].value + 1);
    }
  }

  lemma SearchIsNext(k: K, c: nat)
    requires c < |k.cur| && |k.envs| > 0 && (k.cur[c].Some? ==> k.cur[c].value < |k.envs|)
    ensures var j := Search(k.envs, Start(k, c), 0);
      && (j < |k.envs| <==> SomeRunnable(k))
      && (j < |k.envs| ==> IsNext(k, c, Slot(|k.envs|, Start(k, c), j)))
  {
    var n, start := |k.envs|, Start(k, c);
    var j := Search(k.envs, start, 0);
    forall e | 0 <= e < n && k.envs[e].status == Runnable ensures j <= Turns(k, c, e) < n {
      SlotTurns(k, c, e);
    }
    if j < n {
      SlotTurns(k, c, Slot(n, start, j));
    }
  }

  /** sched_yield: it runs the runnable environment next round from the one this CPU had; if none is
      runnable it goes on with that one, if it is running; if not, the CPU lets go of it and halts,
      as long as some environment is in use somewhere. */
  lemma SchedYieldExact(k: K, c: nat)
    requires Base(k, c) && c < |k.cur|
    ensures k.cur[c].Some? ==> k.cur[c].value < |k.envs|
    ensures var (k', x) := SchedYield(k, c);
      if SomeRunnable(k) then x == ToUser && k'.cur[c].Some? && IsNext(k, c, k'.cur[c].value) && Switched(k, c, k'.cur[c].value, k')
      else if k.cur[c].Some? && k.envs[k.cur[c].value].status == Running then x == ToUser && k' == k
      else if exists e :: 0 <= e < |k.envs| && InUse(k.envs[e].status)
      then x == ToHalt && k' == k.(cur := k.cur[c := None])
      else x == ToMonitor && k' == k
  {
    assert CurOk(k, c, c);
    SearchIsNext(k, c);
    var j := Search(k.envs, Start(k, c), 0);
    if j < |k.envs| {
      EnvRunSwitches(k, c, Slot(|k.envs|, Start(k, c), j));
    } else if k.cur[c].Some? && k.envs[k.cur[c].value].status == Running {
      EnvRunSwitches(k, c, k.cur[c].value);
      assert SchedYield(k, c).0.envs == k.envs;
    }
  }

  /** The end of trap(): the environment goes on if it is still running, and otherwise sched_yield decides. */
  lemma ReturnExact(k: K, c: nat)
    requires Base(k, c) && c < |k.cur|
    ensures k.cur[c].Some? ==> k.cur[c].value < |k.envs|
    ensures if k.cur[c].Some? && k.envs[k.cur[c].value].status == Running then Return(k, c) == (k, ToUser)
            else Return(k, c) == SchedYield(k, c)
  {
    assert CurOk(k, c, c);
    if k.cur[c].Some? && k.envs[k.cur[c].value].status == Running {
      var k' := Return(k, c).0;
      EnvRunSwitches(k, c, k.cur[c].value);
      assert k'.cur == k.cur && k'.envs == k.envs;
      assert k' == k;
    }
  }

  /** Nobody is forgotten: whichever way the kernel is left, an environment is runnable or running
      after if and only if it was before, and its record is the same but for that. */
  lemma SchedKeepsReady(k: K, c: nat, e: nat)
    requires Base(k, c) && c < |k.cur| && e < |k.envs|
    ensures k.cur[c].Some? ==> k.cur[c].value < |k.envs|
    ensures forall k' :: k' == SchedYield(k, c).0 || k' == Return(k, c).0 ==>
      && |k'.envs| == |k.envs|
      && (Ready(k'.envs[e].status) <==> Ready(k.envs[e].status))
      && k'.envs[e] == k.envs[e].(status := k'.envs[e].status)
  {
    SchedYieldExact(k, c);
    ReturnExact(k, c);
  }

  /** CPU c, among n environments, has environment p and is about to yield. */
  ghost predicate Yielding(k: K, c: nat, n: nat, p: nat) {
    Base(k, c) && |k.envs| == n && c < |k.cur| && k.cur[c] == Some(p) && p < n
  }

  /** What sched_yield picks is one pick in the sense of bounded waiting. */
  lemma SchedYieldPicks(k: K, c: nat, n: nat, p: nat, q: nat)
    requires Yielding(k, c, n, p) && SomeRunnable(k)
    ensures SchedYield(k, c).0.cur[c] == Some(q) <==> Picks(k.envs, p, q)
  {
    SearchIsNext(k, c);
  }

  /** Bounded waiting of sched_yield: of n consecutive yields of a CPU over n environments, each
      starting with what the one before it picked, one picks an environment that stays
      runnable until then. */
  lemma YieldsWithinTurn(n: nat, ks: seq<K>, c: nat, picks: seq<nat>, e: nat)
    requires |ks| == n && |picks| == n + 1 && e < n && picks[0] < n
    requires forall i :: 0 <= i < n ==> Yielding(ks[i], c, n, picks[i])
    requires forall i {:trigger ks[i]} :: 0 <= i < n && Yielding(ks[i], c, n, picks[i]) ==>
      SchedYield(ks[i], c).0.cur[c] == Some(picks[i + 1])
    requires forall i :: 0 <= i < n && Yielding(ks[i], c, n, picks[i]) && NotYet(picks, e, i) ==> ks[i].envs[e].status == Runnable
    ensures exists i :: 0 < i <= n && picks[i] == e
  {
    if NotYet(picks, e, n) {
      var tables := seq(n, i requires 0 <= i < n => ks[i].envs);
      forall i | 0 <= i < n ensures Picks(tables[i], picks[i], picks[i + 1]) {
        assert NotYet(picks, e, i) && ks[i].envs[e].status == Runnable;
        SchedYieldPicks(ks[i], c, n, picks[i], picks[i + 1]);
      }
      BoundedWaiting(n, tables, picks, e);
    }
  }

  /** A CPU that has no environment, as after one has been destroyed, starts again at slot 0: it
      picks the lowest runnable slot, however long another has waited. */
  lemma RestartsAtZero(k: K, c: nat, e: nat)
    requires Base(k, c) && c < |k.cur| && k.cur[c].None? && e < |k.envs| && k.envs[e].status == Runnable
    ensures SchedYield(k, c).0.cur[c] == Some(e) <==> forall x :: 0 <= x < e ==> k.envs[x].status != Runnable
  {
    SchedYieldExact(k, c);
  }
}
