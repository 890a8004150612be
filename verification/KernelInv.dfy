/** What every kernel operation keeps: one CPU per running environment, and
    exactly-once delivery of messages. */
module KernelInv {
  import opened Options
  import opened Addresses
  import opened Vm
  import opened Kernel

  /** cur[c] may hold env e. The CPU b that is inside the kernel may have
      changed its own environment's status already. */
  predicate CurOk(k: K, b: int, c: nat)
    requires c < |k.cur|
  {
    k.cur[c].Some? ==>
      && k.cur[c].value < |k.envs|
      && var st := k.envs[k.cur[c].value].status;
         if c == b then st != Free && st != Dying else InUse(st)
  }

  ghost predicate OnSomeCpu(k: K, e: nat) {
    exists c :: 0 <= c < |k.cur| && k.cur[c] == Some(e)
  }

  /** A waiting receiver is not runnable, and the histories differ by the
      message that has been delivered and not been read. */
  predicate MailOk(e: Env) {
    && (e.recving <==> e.phase == Blocked)
    && (e.recving ==> e.status == NotRunnable)
    && (e.phase.HalfRead? ==> e.phase.from == e.from)
    && e.sent == if e.phase.Delivered? || e.phase.HalfRead? then e.got + [Message(e.from, e.value)] else e.got
  }

  /** Every environment in use is on exactly one CPU, and every CPU's
      environment is in use; b is the CPU inside the kernel, or -1. */
  ghost predicate Base(k: K, b: int) {
    && |k.envs| > 0
    && (forall c :: 0 <= c < |k.cur| ==> CurOk(k, b, c))
    && (forall c, d :: 0 <= c < |k.cur| && 0 <= d < |k.cur| && c != d && k.cur[c].Some? ==> k.cur[c] != k.cur[d])
    && (forall e :: 0 <= e < |k.envs| && InUse(k.envs[e].status) ==> OnSomeCpu(k, e))
    && (forall e :: 0 <= e < |k.envs| && k.envs[e].status != Free ==> MailOk(k.envs[e]))
  }

  // ----- leaving the kernel -----

  lemma EnvRunKeeps(k: K, c: nat, e: nat)
    requires Base(k, c) && c < |k.cur| && e < |k.envs| && CurOk(k, c, c)
    requires k.envs[e].status == Runnable || (k.cur[c] == Some(e) && k.envs[e].status == Running)
    ensures Base(EnvRun(k, c, e), -1)
    ensures EnvRun(k, c, e).cur[c] == Some(e) && |EnvRun(k, c, e).cur| == |k.cur|
  {
    var k' := EnvRun(k, c, e);
    assert CurOk(k, c, c);
    forall d | 0 <= d < |k'.cur| ensures CurOk(k', -1, d) && (d != c ==> k'.cur[d] == k.cur[d] != Some(e)) {
      assert CurOk(k, c, d);
    }
    forall x | 0 <= x < |k'.envs| && InUse(k'.envs[x].status) ensures OnSomeCpu(k', x) {
      if x == e {
        assert k'.cur[c] == Some(x);
      } else {
        var d :| 0 <= d < |k.cur| && k.cur[d] == Some(x);
        assert k'.cur[d] == Some(x);
      }
    }
    forall x | 0 <= x < |k'.envs| && k'.envs[x].status != Free ensures MailOk(k'.envs[x]) {
      assert k.envs[x].status != Free ==> MailOk(k.envs[x]);
    }
  }

  lemma HaltKeeps(k: K, c: nat)
    requires Base(k, c) && c < |k.cur| && CurOk(k, c, c)
    requires k.cur[c].Some? ==> k.envs[k.cur[c].value].status != Running
    ensures Base(SetCur(k, c, None), -1)
  {
    var k' := SetCur(k, c, None);
    assert CurOk(k, c, c);
    forall d | 0 <= d < |k'.cur| ensures CurOk(k', -1, d) {
      assert CurOk(k, c, d);
    }
    forall x | 0 <= x < |k'.envs| && InUse(k'.envs[x].status) ensures OnSomeCpu(k', x) {
      var d :| 0 <= d < |k.cur| && k.cur[d] == Some(x);
      assert k'.cur[d] == Some(x);
    }
  }

  /** sched_yield re-establishes the invariant: the environment it picks was on
      no CPU, or on this one. */
  lemma SchedYieldKeeps(k: K, c: nat)
    requires Base(k, c) && c < |k.cur|
    ensures k.cur[c].Some? ==> k.cur[c].value < |k.envs|
    ensures var (k', x) := SchedYield(k, c);
      && |k'.cur| == |k.cur| && |k'.envs| == |k.envs|
      && (x != ToMonitor ==> Base(k', -1))
      && (x == ToUser <==> k'.cur[c].Some? && x != ToMonitor)
      && (x == ToMonitor ==> k' == k)
  {
    assert CurOk(k, c, c);
    var j := Search(k.envs, Start(k, c), 0);
    if j < |k.envs| {
      EnvRunKeeps(k, c, Slot(|k.envs|, Start(k, c), j));
    } else if k.cur[c].Some? && k.envs[k.cur[c].value].status == Running {
      EnvRunKeeps(k, c, k.cur[c].value);
    } else {
      HaltKeeps(k, c);
    }
  }

  lemma ReturnKeeps(k: K, c: nat)
    requires Base(k, c) && c < |k.cur|
    ensures k.cur[c].Some? ==> k.cur[c].value < |k.envs|
    ensures var (k', x) := Return(k, c);
      && |k'.cur| == |k.cur| && |k'.envs| == |k.envs|
      && (x != ToMonitor ==> Base(k', -1))
      && (x == ToUser <==> k'.cur[c].Some? && x != ToMonitor)
      && (x == ToMonitor ==> k' == k)
  {
    assert CurOk(k, c, c);
    if k.cur[c].Some? && k.envs[k.cur[c].value].status == Running {
      EnvRunKeeps(k, c, k.cur[c].value);
    } else {
      SchedYieldKeeps(k, c);
    }
  }

  // ----- the system calls -----

  /** One environment's record changes; its place on a CPU is still right. */
  lemma UpdateKeeps(k: K, b: nat, e: nat, env: Env)
    requires Base(k, b) && b < |k.cur| && e < |k.envs|
    requires env.status != Free ==> MailOk(env)
    requires InUse(env.status) ==> InUse(k.envs[e].status)
    requires OnSomeCpu(k, e) && k.cur[b] != Some(e) ==> InUse(env.status)
    requires k.cur[b] == Some(e) ==> env.status != Free && env.status != Dying
    ensures Base(k.(envs := k.envs[e := env]), b)
  {
    var k' := k.(envs := k.envs[e := env]);
    forall d | 0 <= d < |k'.cur| ensures CurOk(k', b, d) {
      assert CurOk(k, b, d);
    }
    forall x | 0 <= x < |k'.envs| && InUse(k'.envs[x].status) ensures OnSomeCpu(k', x) {
      var d :| 0 <= d < |k.cur| && k.cur[d] == Some(x);
      assert k'.cur[d] == Some(x);
    }
  }

  lemma UserCur(k: K, c: nat)
    requires Base(k, -1) && c < |k.cur| && k.cur[c].Some?
    ensures k.cur[c].value < |k.envs| && InUse(k.envs[k.cur[c].value].status)
    ensures k.envs[k.cur[c].value].status == Running ==> Base(k, c)
  {
    assert CurOk(k, -1, c);
    forall d | 0 <= d < |k.cur| ensures k.envs[k.cur[c].value].status == Running ==> CurOk(k, c, d) {
      assert CurOk(k, -1, d);
    }
  }

  /** A zombie is reaped by the CPU it is on: its slot is freed and the CPU lets go of it. */
  lemma ReapKeeps(k: K, b: int, c: nat)
    requires (b == -1 || b == c) && Base(k, b) && c < |k.cur| && k.cur[c].Some? && k.cur[c].value < |k.envs|
    ensures Base(SetCur(EnvFree(k, k.cur[c].value), c, None), c)
  {
    var e := k.cur[c].value;
    var k' := SetCur(EnvFree(k, e), c, None);
    forall d | 0 <= d < |k'.cur| ensures CurOk(k', c, d) {
      assert CurOk(k, b, d);
    }
    forall x | 0 <= x < |k'.envs| && InUse(k'.envs[x].status) ensures OnSomeCpu(k', x) {
      var d :| 0 <= d < |k.cur| && k.cur[d] == Some(x);
      assert k'.cur[d] == Some(x);
    }
  }

  lemma IdleIsOffCpu(k: K, b: int, e: nat)
    requires Base(k, b) && e < |k.envs| && !InUse(k.envs[e].status)
    requires !(0 <= b < |k.cur| && k.cur[b] == Some(e))
    ensures !OnSomeCpu(k, e)
  {
    forall d | 0 <= d < |k.cur| ensures k.cur[d] != Some(e) {
      assert CurOk(k, b, d);
    }
  }

  /** env_destroy of another environment keeps the invariant exactly when that
      environment is not already ENV_DYING: then its slot would be freed
      under the CPU it still runs on. */
  lemma DestroyKeepsIff(k: K, c: nat, e: nat)
    requires Base(k, c) && c < |k.cur| && e < |k.envs| && k.envs[e].status != Free && k.cur[c] != Some(e)
    ensures Base(EnvDestroy(k, c, e).0, c) <==> k.envs[e].status != Dying
  {
    var k' := EnvDestroy(k, c, e).0;
    if k.envs[e].status == Dying {
      var d :| 0 <= d < |k.cur| && k.cur[d] == Some(e);
      assert !CurOk(k', c, d);
    } else {
      if k.envs[e].status != Running {
        IdleIsOffCpu(k, c, e);
      }
      UpdateKeeps(k, c, e, k'.envs[e]);
    }
  }

  /** Environment 0 runs on CPU 0; its child, environment 1, is in status st on CPU 1. */
  function ParentAndChild(st: Status): K {
    K([Env(4096, 0, Running, false, NULL_VA, NO_FLAGS, 0, 0, Idle, [], []),
       Env(4097, 4096, st, false, NULL_VA, NO_FLAGS, 0, 0, Idle, [], [])], [Some(0), Some(1)])
  }

  lemma ParentAndChildBase(st: Status)
    requires InUse(st)
    ensures Base(ParentAndChild(st), 0)
  {
    var k := ParentAndChild(st);
    assert k.cur[0] == Some(0) && k.cur[1] == Some(1);
  }

  /** Such a state exists: CPU 1 still runs the dying environment 1, and its
      parent on CPU 0 destroys it once more. */
  lemma DestroyDyingBreaks()
    ensures Base(ParentAndChild(Dying), 0) && !Base(EnvDestroy(ParentAndChild(Dying), 0, 1).0, 0)
  {
    ParentAndChildBase(Dying);
    DestroyKeepsIff(ParentAndChild(Dying), 0, 1);
  }

  predicate StatusOk(k: K, c: nat, e: nat, st: Status)
    requires c < |k.cur| && e < |k.envs|
  {
    k.cur[c] == Some(e) || (!InUse(k.envs[e].status) && !(k.envs[e].recving && st == Runnable))
  }

  /** sys_env_set_status keeps the invariant exactly when its target is the
      caller, or is on no CPU and is not a receiver being made runnable. */
  lemma SetStatusKeepsIff(k: K, c: nat, e: nat, st: Status)
    requires Base(k, c) && c < |k.cur| && e < |k.envs| && k.envs[e].status != Free
    requires st == Runnable || st == NotRunnable
    requires k.cur[c] == Some(e) ==> k.envs[e].status == Running
    ensures Base(SetStatusAt(k, e, st), c) <==> StatusOk(k, c, e, st)
  {
    var k' := SetStatusAt(k, e, st);
    if k.cur[c] != Some(e) && OnSomeCpu(k, e) {
      var d :| 0 <= d < |k.cur| && k.cur[d] == Some(e);
      assert CurOk(k, c, d) && !CurOk(k', c, d);
    } else if StatusOk(k, c, e, st) {
      UpdateKeeps(k, c, e, k'.envs[e]);
    } else {
      assert InUse(k.envs[e].status) ==> OnSomeCpu(k, e);
      assert !MailOk(k'.envs[e]);
    }
  }

  /** Such a state exists: the parent sets the status of a child that CPU 1 is running. */
  lemma SetStatusBreaks(st: Status)
    requires st == Runnable || st == NotRunnable
    ensures Envid2env(ParentAndChild(Running), 0, 4097, true) == Some(1)
    ensures Base(ParentAndChild(Running), 0) && !Base(SetStatusAt(ParentAndChild(Running), 1, st), 0)
  {
    ParentAndChildBase(Running);
    SetStatusKeepsIff(ParentAndChild(Running), 0, 1, st);
  }

  lemma SendKeeps(k: K, c: nat, id: int, value: int, src: Va, perm: Flags, page: PageSend)
    requires Base(k, c) && c < |k.cur| && k.cur[c].Some? && k.cur[c].value < |k.envs|
    requires k.envs[k.cur[c].value].status == Running
    ensures Base(TrySend(k, c, id, value, src, perm, page).0, c)
  {
    var t := Envid2env(k, c, id, false);
    if t.Some? && k.envs[t.value].recving {
      assert MailOk(k.envs[t.value]);
      IdleIsOffCpu(k, c, t.value);
      var k' := TrySend(k, c, id, value, src, perm, page).0;
      if k' != k {
        UpdateKeeps(k, c, t.value, k'.envs[t.value]);
      }
    }
  }

  lemma AllocKeeps(k: K, c: nat, e: nat, id: int, parent: int, st: Status)
    requires Base(k, c) && c < |k.cur| && e < |k.envs| && k.envs[e].status == Free && (st == Runnable || st == NotRunnable)
    ensures Base(EnvAlloc(k, e, id, parent, st), c)
  {
    assert CurOk(k, c, c);
    IdleIsOffCpu(k, c, e);
    UpdateKeeps(k, c, e, EnvAlloc(k, e, id, parent, st).envs[e]);
  }

  /** The two hypotheses on how user code uses the system calls, and that a
      program does not call ipc_recv again before the last call has returned. */
  predicate Polite(k: K, c: nat, a: Action)
    requires c < |k.cur| && k.cur[c].Some? && k.cur[c].value < |k.envs|
  {
    match a
    case Destroy(id) =>
      var t := Envid2env(k, c, id, true);
      t.Some? && k.cur[c] != t ==> k.envs[t.value].status != Dying
    case SetStatus(id, st) =>
      var t := Envid2env(k, c, id, true);
      t.Some? ==> StatusOk(k, c, t.value, st)
    case Recv(_) => k.envs[k.cur[c].value].phase == Idle
    case _ => true
  }

  /** Every trap from user mode, whatever it asks for, leaves a state from
      which sched_yield or the end of trap() restores the invariant. */
  lemma DispatchKeeps(k: K, c: nat, a: Action)
    requires Base(k, -1) && c < |k.cur| && k.cur[c].Some? && k.cur[c].value < |k.envs|
    requires Polite(k, c, a)
    ensures Base(Dispatch(k, c, a).0, c)
    ensures |Dispatch(k, c, a).0.cur| == |k.cur|
  {
    UserCur(k, c);
    var me := k.cur[c].value;
    if k.envs[me].status == Dying {
      ReapKeeps(k, -1, c);
    } else {
      match a
      case Timer =>
      case Other =>
      case Destroy(id) =>
        var t := Envid2env(k, c, id, true);
        if t.Some? {
          if k.cur[c] == t {
            ReapKeeps(k, c, c);
          } else {
            DestroyKeepsIff(k, c, t.value);
          }
        }
      case Fault => ReapKeeps(k, c, c);
      case Exofork(slot, id) =>
        if slot < |k.envs| && k.envs[slot].status == Free {
          AllocKeeps(k, c, slot, id, k.envs[me].id, NotRunnable);
        }
      case SetStatus(id, st) =>
        var t := Envid2env(k, c, id, true);
        if t.Some? && (st == Runnable || st == NotRunnable) {
          SetStatusKeepsIff(k, c, t.value, st);
        }
      case Send(id, value, src, perm, page) => SendKeeps(k, c, id, value, src, perm, page);
      case Recv(dstva) =>
        if !RecvRejects(dstva) {
          UpdateKeeps(k, c, me, RecvBlock(k, me, dstva).envs[me]);
        }
    }
  }
}
