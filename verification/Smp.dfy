/** The multiprocessor kernel as a step system. The big lock of
    kern/spinlock.c is taken and released one load, store or xchg at a time,
    interleaved in any order between CPUs. */
module Smp {
  import opened Options
  import opened Addresses
  import opened Vm
  import opened Kernel
  import opened KernelInv

  /** What follows lock_kernel(): the rest of trap() after waking from halt, or the kernel proper. */
  datatype Cont = WakeDone(user: bool) | Enter(user: bool)

  /** Where a CPU stands. user says whether the trap came from user mode;
      Woken.held records whether the wake-up path took the lock. */
  datatype Pc =
    | Unstarted
    | Trap(user: bool)                 // trap(): xchg(&cpu_status, CPU_STARTED)
    | Woken(user: bool, held: bool)    // trap(): (tf_cs & 3) == 3 ?
    | L1(k: Cont)                      // spin_lock: holding() loads lk->locked
    | L2(k: Cont)                      // spin_lock: holding() loads lk->cpu
    | Spin(k: Cont)                    // spin_lock: xchg(&lk->locked, 1)
    | Own(k: Cont)                     // spin_lock: lk->cpu = thiscpu
    | Work(user: bool)                 // in the kernel
    | Resched(after: After)            // trap dispatched; env_run, sched_yield or sched_halt next
    | U1(x: Exit)                      // spin_unlock: holding() loads lk->locked
    | U2(x: Exit)                      // spin_unlock: holding() loads lk->cpu
    | U3(x: Exit)                      // spin_unlock: lk->cpu = 0
    | U4(x: Exit)                      // spin_unlock: xchg(&lk->locked, 0)
    | User
    | Halt
    | Monitor                          // sched_halt found nothing left to run
    | Panicked                         // "already holding", "spin_unlock" or assert(curenv)

  datatype CpuStatus = Unused | Started | Halted

  datatype Sys = Sys(k: K, pc: seq<Pc>, status: seq<CpuStatus>, locked: bool, owner: Option<nat>)

  /** What a step is told: nothing, the trap's cause, an environment to create, or an ipc_recv load. */
  datatype Label = Tick | Do(a: Action) | Create(slot: nat, id: int) | Load

  function Goto(s: Sys, c: nat, pc: Pc): Sys
    requires c < |s.pc|
  {
    s.(pc := s.pc[c := pc])
  }

  /** ipc_recv's loads of thisenv->env_ipc_from and then env_ipc_value. */
  function ReadMail(k: K, e: nat): K
    requires e < |k.envs|
  {
    var env := k.envs[e];
    match env.phase
    case Delivered => k.(envs := k.envs[e := env.(phase := HalfRead(env.from))])
    case HalfRead(f) => k.(envs := k.envs[e := env.(phase := Idle, got := env.got + [Message(f, env.value)])])
    case _ => k
  }

  predicate Sized(s: Sys) {
    |s.pc| == |s.k.cur| == |s.status| && |s.k.envs| > 0 &&
    forall c :: 0 <= c < |s.k.cur| && s.k.cur[c].Some? ==> s.k.cur[c].value < |s.k.envs|
  }

  /** Leave the kernel as (k, x) says. */
  function Leave(s: Sys, c: nat, r: (K, Exit)): Sys
    requires c < |s.pc| && c < |s.status|
  {
    if r.1 == ToMonitor then Goto(s, c, Monitor)
    else Goto(s, c, U1(r.1)).(k := r.0, status := if r.1 == ToHalt then s.status[c := Halted] else s.status)
  }

  /** One step of CPU c. */
  ghost function Step(s: Sys, c: nat, l: Label): Sys
    requires Sized(s) && c < |s.pc|
  {
    match s.pc[c]
    case Unstarted => Goto(s, c, L1(Enter(false))).(status := s.status[c := Started])
    case Trap(u) =>
      var s1 := s.(status := s.status[c := Started]);
      if s.status[c] == Halted then Goto(s1, c, L1(WakeDone(u))) else Goto(s1, c, Woken(u, false))
    case Woken(u, _) => Goto(s, c, if u then L1(Enter(true)) else Work(false))
    case L1(k) => Goto(s, c, if s.locked then L2(k) else Spin(k))
    case L2(k) => Goto(s, c, if s.owner == Some(c) then Panicked else Spin(k))
    case Spin(k) => if s.locked then s else Goto(s, c, Own(k)).(locked := true)
    case Own(k) =>
      Goto(s, c, if k.WakeDone? then Woken(k.user, true) else Work(k.user)).(owner := Some(c))
    case Work(u) =>
      if u then
        if s.k.cur[c].None? then Goto(s, c, Panicked)
        else
          var r := Dispatch(s.k, c, if l.Do? then l.a else Other);
          Goto(s, c, Resched(r.1)).(k := r.0)
      else if l.Create? && l.slot < |s.k.envs| && s.k.envs[l.slot].status == Free then
        s.(k := EnvAlloc(s.k, l.slot, l.id, 0, Runnable))
      else Goto(s, c, Resched(Yields))
    case Resched(after) => Leave(s, c, if after.Falls? then Return(s.k, c) else SchedYield(s.k, c))
    case U1(x) => Goto(s, c, if s.locked then U2(x) else Panicked)
    case U2(x) => Goto(s, c, if s.owner == Some(c) then U3(x) else Panicked)
    case U3(x) => Goto(s, c, U4(x)).(owner := None)
    case U4(x) => Goto(s, c, if x == ToUser then User else Halt).(locked := false)
    case User =>
      if l.Load? && s.k.cur[c].Some? then s.(k := ReadMail(s.k, s.k.cur[c].value)) else Goto(s, c, Trap(true))
    case Halt => Goto(s, c, Trap(false))
    case Monitor => s
    case Panicked => s
  }

  /** The user-side hypotheses of module KernelInv, at the moment a trap is dispatched. */
  predicate Allowed(s: Sys, c: nat, l: Label)
    requires Sized(s) && c < |s.pc|
  {
    s.pc[c] == Work(true) && l.Do? && s.k.cur[c].Some? ==> Polite(s.k, c, l.a)
  }

  // ----- the invariant -----

  predicate Holds(pc: Pc) {
    match pc
    case Woken(_, held) => held
    case Own(_) | Work(_) | Resched(_) | U1(_) | U2(_) | U3(_) | U4(_) | Monitor => true
    case _ => false
  }

  predicate Owns(pc: Pc) {
    Holds(pc) && !pc.Own? && !pc.U4?
  }

  /** The CPU has dispatched a trap and not yet chosen what to run. */
  predicate Mid(pc: Pc) {
    pc.Resched? || pc.Monitor?
  }

  predicate PcOk(s: Sys, c: nat)
    requires Sized(s) && c < |s.pc|
  {
    var on, st := s.k.cur[c].Some?, s.status[c];
    match s.pc[c]
    case Unstarted => !on
    case Trap(u) => on == u && st == if u then Started else Halted
    case Woken(u, held) => on == u && held == !u && st == Started
    case L1(k) => on == k.user && st == Started && (k.WakeDone? ==> !k.user)
    case L2(k) => on == k.user && st == Started && (k.WakeDone? ==> !k.user)
    case Spin(k) => on == k.user && st == Started && (k.WakeDone? ==> !k.user)
    case Own(k) => on == k.user && st == Started && (k.WakeDone? ==> !k.user)
    case Work(u) => on == u && st == Started
    case Resched(_) => st == Started
    case U1(x) => LeaveOk(x, on, st)
    case U2(x) => LeaveOk(x, on, st)
    case U3(x) => LeaveOk(x, on, st)
    case U4(x) => LeaveOk(x, on, st)
    case User => on && st == Started
    case Halt => !on && st == Halted
    case Monitor => true
    case Panicked => false
  }

  predicate LeaveOk(x: Exit, on: bool, st: CpuStatus) {
    (x == ToUser && on && st == Started) || (x == ToHalt && !on && st == Halted)
  }

  /** The lock word is set exactly when some CPU is between its two xchgs, at
      most one is, and the owner field is that CPU while it is recorded. */
  ghost predicate LockOk(s: Sys) {
    && (forall c, d :: 0 <= c < |s.pc| && 0 <= d < |s.pc| && Holds(s.pc[c]) && Holds(s.pc[d]) ==> c == d)
    && (s.locked <==> exists c :: 0 <= c < |s.pc| && Holds(s.pc[c]))
    && (forall c :: 0 <= c < |s.pc| ==> (Owns(s.pc[c]) <==> s.owner == Some(c)))
    && (s.owner.Some? ==> s.owner.value < |s.pc|)
  }

  ghost predicate KernelOk(s: Sys) {
    && (forall c :: 0 <= c < |s.pc| && Mid(s.pc[c]) ==> Base(s.k, c))
    && ((forall c :: 0 <= c < |s.pc| ==> !Mid(s.pc[c])) ==> Base(s.k, -1))
  }

  ghost predicate SysInv(s: Sys) {
    Sized(s) && (forall c :: 0 <= c < |s.pc| ==> PcOk(s, c)) && LockOk(s) && KernelOk(s)
  }

  /** Only CPU c's own position, status and environment differ. */
  ghost predicate OnlyCpu(s: Sys, c: nat, s': Sys) {
    && Sized(s) && Sized(s') && |s'.pc| == |s.pc| && c < |s.pc|
    && forall d :: 0 <= d < |s.pc| && d != c ==>
         s'.pc[d] == s.pc[d] && s'.status[d] == s.status[d] && s'.k.cur[d].Some? == s.k.cur[d].Some?
  }

  lemma LockSame(s: Sys, c: nat, s': Sys)
    requires LockOk(s) && OnlyCpu(s, c, s') && s'.locked == s.locked && s'.owner == s.owner
    requires Holds(s'.pc[c]) == Holds(s.pc[c]) && Owns(s'.pc[c]) == Owns(s.pc[c])
    ensures LockOk(s')
  {
    if s.locked {
      var d :| 0 <= d < |s.pc| && Holds(s.pc[d]);
      assert Holds(s'.pc[d]);
    }
  }

  /** xchg(&lk->locked, 1) returned 0. */
  lemma LockTaken(s: Sys, c: nat, s': Sys)
    requires LockOk(s) && OnlyCpu(s, c, s') && !s.locked && s'.locked && s'.owner == s.owner
    requires !Holds(s.pc[c]) && s'.pc[c].Own?
    ensures LockOk(s')
  {
    assert Holds(s'.pc[c]);
  }

  lemma LockOwned(s: Sys, c: nat, s': Sys)
    requires LockOk(s) && OnlyCpu(s, c, s') && s'.locked == s.locked && s'.owner == Some(c)
    requires s.pc[c].Own? && Owns(s'.pc[c])
    ensures LockOk(s')
  {
    assert Holds(s.pc[c]) && Holds(s'.pc[c]);
  }

  lemma LockDisowned(s: Sys, c: nat, s': Sys)
    requires LockOk(s) && OnlyCpu(s, c, s') && s'.locked == s.locked && s'.owner == None
    requires s.pc[c].U3? && s'.pc[c].U4?
    ensures LockOk(s')
  {
    assert Holds(s.pc[c]) && Holds(s'.pc[c]) && Owns(s.pc[c]);
  }

  lemma LockReleased(s: Sys, c: nat, s': Sys)
    requires LockOk(s) && OnlyCpu(s, c, s') && !s'.locked && s'.owner == s.owner
    requires s.pc[c].U4? && !Holds(s'.pc[c])
    ensures LockOk(s')
  {
    assert Holds(s.pc[c]);
    forall d | 0 <= d < |s'.pc| ensures !Holds(s'.pc[d]) {
    }
  }

  /** CPU c moved between positions outside the rescheduling window. */
  lemma KernelSame(s: Sys, c: nat, s': Sys)
    requires KernelOk(s) && OnlyCpu(s, c, s') && s'.k == s.k && !Mid(s.pc[c]) && !Mid(s'.pc[c])
    ensures KernelOk(s')
  {
    forall d | 0 <= d < |s'.pc| && Mid(s'.pc[d]) ensures Base(s'.k, d) {
      assert Mid(s.pc[d]);
    }
    if forall d :: 0 <= d < |s'.pc| ==> !Mid(s'.pc[d]) {
      forall d | 0 <= d < |s.pc| ensures !Mid(s.pc[d]) {
        assert !Mid(s'.pc[d]);
      }
    }
  }

  lemma OthersOk(s: Sys, c: nat, s': Sys)
    requires OnlyCpu(s, c, s') && (forall d :: 0 <= d < |s.pc| ==> PcOk(s, d)) && PcOk(s', c)
    ensures forall d :: 0 <= d < |s'.pc| ==> PcOk(s', d)
  {
    forall d | 0 <= d < |s'.pc| ensures PcOk(s', d) {
      assert PcOk(s, d);
    }
  }

  /** The positions in which a step touches the lock, cpu_status or nothing shared at all. */
  predicate Outside(s: Sys, c: nat, l: Label)
    requires c < |s.pc|
  {
    !s.pc[c].Work? && !s.pc[c].Resched? && !s.pc[c].Monitor? && !(s.pc[c].User? && l.Load?)
  }

  lemma OutsideMoves(s: Sys, c: nat, l: Label)
    requires Sized(s) && c < |s.pc| && PcOk(s, c) && Outside(s, c, l)
    requires Holds(s.pc[c]) ==> s.locked
    requires Owns(s.pc[c]) <==> s.owner == Some(c)
    ensures var s' := Step(s, c, l);
      OnlyCpu(s, c, s') && PcOk(s', c) && s'.k == s.k && !Mid(s'.pc[c])
  {
  }

  lemma OutsideLock(s: Sys, c: nat, l: Label)
    requires Sized(s) && c < |s.pc| && PcOk(s, c) && Outside(s, c, l) && LockOk(s)
    requires OnlyCpu(s, c, Step(s, c, l)) && PcOk(Step(s, c, l), c)
    ensures LockOk(Step(s, c, l))
  {
    var s' := Step(s, c, l);
    match s.pc[c] {
      case Spin(_) =>
        if !s.locked {
          LockTaken(s, c, s');
        }
      case Own(_) => LockOwned(s, c, s');
      case U3(_) => LockDisowned(s, c, s');
      case U4(_) => LockReleased(s, c, s');
      case _ => LockSame(s, c, s');
    }
  }

  lemma OutsideStepKeeps(s: Sys, c: nat, l: Label)
    requires SysInv(s) && c < |s.pc| && Outside(s, c, l)
    ensures SysInv(Step(s, c, l))
  {
    assert PcOk(s, c);
    OutsideMoves(s, c, l);
    OutsideLock(s, c, l);
    OthersOk(s, c, Step(s, c, l));
    KernelSame(s, c, Step(s, c, l));
  }

  lemma NobodyMid(s: Sys, c: nat)
    requires SysInv(s) && c < |s.pc| && Holds(s.pc[c]) && !Mid(s.pc[c])
    ensures Base(s.k, -1)
  {
    forall d | 0 <= d < |s.pc| ensures !Mid(s.pc[d]) {
    }
  }

  /** The kernel proper: a trap is dispatched, or a booting or woken CPU turns to the scheduler. */
  lemma WorkStepKeeps(s: Sys, c: nat, l: Label)
    requires SysInv(s) && c < |s.pc| && s.pc[c].Work? && Allowed(s, c, l)
    ensures SysInv(Step(s, c, l))
  {
    var s' := Step(s, c, l);
    assert PcOk(s, c);
    NobodyMid(s, c);
    if s.pc[c].user {
      DispatchKeeps(s.k, c, if l.Do? then l.a else Other);
      DispatchCur(s.k, c, if l.Do? then l.a else Other);
    } else {
      OffCpu(s.k, c);
      if l.Create? && l.slot < |s.k.envs| && s.k.envs[l.slot].status == Free {
        AllocKeeps(s.k, c, l.slot, l.id, 0, Runnable);
        OffCpu(s'.k, c);
      }
    }
    BaseSized(s'.k, c);
    LockSame(s, c, s');
    OthersOk(s, c, s');
    forall d | 0 <= d < |s'.pc| && d != c ensures !Mid(s'.pc[d]) {
      assert Holds(s.pc[c]);
    }
  }

  /** Dispatch only lets go of this CPU's own environment. */
  lemma DispatchCur(k: K, c: nat, a: Action)
    requires c < |k.cur| && k.cur[c].Some? && k.cur[c].value < |k.envs|
    ensures var k' := Dispatch(k, c, a).0;
      |k'.cur| == |k.cur| && |k'.envs| == |k.envs| && forall d :: 0 <= d < |k.cur| && d != c ==> k'.cur[d] == k.cur[d]
  {
  }

  /** A CPU with no environment sees the same invariant from inside and outside the kernel. */
  lemma OffCpu(k: K, c: nat)
    requires c < |k.cur| && k.cur[c].None?
    ensures Base(k, c) <==> Base(k, -1)
  {
    if Base(k, c) {
      forall d | 0 <= d < |k.cur| ensures CurOk(k, -1, d) {
        assert CurOk(k, c, d);
      }
    }
    if Base(k, -1) {
      forall d | 0 <= d < |k.cur| ensures CurOk(k, c, d) {
        assert CurOk(k, -1, d);
      }
    }
  }

  lemma BaseSized(k: K, b: int)
    requires Base(k, b)
    ensures forall c :: 0 <= c < |k.cur| && k.cur[c].Some? ==> k.cur[c].value < |k.envs|
  {
    forall c | 0 <= c < |k.cur| && k.cur[c].Some? ensures k.cur[c].value < |k.envs| {
      assert CurOk(k, b, c);
    }
  }

  /** sched_yield and env_run only change this CPU's environment. */
  lemma YieldCur(k: K, c: nat)
    requires c < |k.cur| && |k.envs| > 0 && (k.cur[c].Some? ==> k.cur[c].value < |k.envs|)
    ensures var k' := SchedYield(k, c).0;
      |k'.cur| == |k.cur| && forall d :: 0 <= d < |k.cur| && d != c ==> k'.cur[d] == k.cur[d]
    ensures var k' := Return(k, c).0;
      |k'.cur| == |k.cur| && forall d :: 0 <= d < |k.cur| && d != c ==> k'.cur[d] == k.cur[d]
  {
  }

  lemma LeaveKeeps(s: Sys, c: nat, r: (K, Exit))
    requires SysInv(s) && c < |s.pc| && s.pc[c].Resched?
    requires |r.0.cur| == |s.k.cur| && |r.0.envs| == |s.k.envs|
    requires forall d :: 0 <= d < |s.k.cur| && d != c ==> r.0.cur[d] == s.k.cur[d]
    requires r.1 != ToMonitor ==> Base(r.0, -1) && (r.1 == ToUser <==> r.0.cur[c].Some?)
    ensures SysInv(Leave(s, c, r))
  {
    var s' := Leave(s, c, r);
    assert PcOk(s, c) && Mid(s.pc[c]) && Holds(s.pc[c]);
    if r.1 != ToMonitor {
      BaseSized(s'.k, -1);
    }
    assert OnlyCpu(s, c, s');
    LockSame(s, c, s');
    OthersOk(s, c, s');
    LeaveKernel(s, c, s');
  }

  /** Nobody else is in the window that CPU c leaves. */
  lemma LeaveKernel(s: Sys, c: nat, s': Sys)
    requires LockOk(s) && OnlyCpu(s, c, s') && Holds(s.pc[c])
    requires if Mid(s'.pc[c]) then Base(s'.k, c) else Base(s'.k, -1)
    ensures KernelOk(s')
  {
    forall d | 0 <= d < |s'.pc| && d != c ensures !Mid(s'.pc[d]) {
      assert !Holds(s.pc[d]);
    }
  }

  /** env_run, sched_yield and sched_halt close the rescheduling window. */
  lemma ReschedStepKeeps(s: Sys, c: nat, l: Label)
    requires SysInv(s) && c < |s.pc| && s.pc[c].Resched?
    ensures SysInv(Step(s, c, l))
  {
    assert Mid(s.pc[c]) && Base(s.k, c);
    YieldCur(s.k, c);
    if s.pc[c].after.Falls? {
      ReturnKeeps(s.k, c);
      LeaveKeeps(s, c, Return(s.k, c));
    } else {
      SchedYieldKeeps(s.k, c);
      LeaveKeeps(s, c, SchedYield(s.k, c));
    }
  }

  /** A load by user code may happen while another CPU is anywhere, even inside the kernel. */
  lemma ReadMailKeeps(k: K, b: int, e: nat)
    requires Base(k, b) && e < |k.envs| && k.envs[e].status != Free
    ensures Base(ReadMail(k, e), b)
  {
    var k' := ReadMail(k, e);
    assert MailOk(k.envs[e]);
    assert MailOk(k'.envs[e]);
    forall d | 0 <= d < |k'.cur| ensures CurOk(k', b, d) {
      assert CurOk(k, b, d);
    }
    forall x | 0 <= x < |k'.envs| && InUse(k'.envs[x].status) ensures OnSomeCpu(k', x) {
      assert OnSomeCpu(k, x);
    }
  }

  /** Whoever is inside the kernel, a load by running code changes nothing it relies on. */
  lemma LoadKernel(s: Sys, c: nat, k': K)
    requires KernelOk(s) && c < |s.pc| == |s.k.cur| && !Mid(s.pc[c])
    requires s.k.cur[c].Some? && s.k.cur[c].value < |s.k.envs| && k' == ReadMail(s.k, s.k.cur[c].value)
    ensures KernelOk(s.(k := k'))
  {
    forall b: int | Base(s.k, b) && b != c ensures Base(k', b) {
      assert CurOk(s.k, b, c);
      ReadMailKeeps(s.k, b, s.k.cur[c].value);
    }
  }

  lemma LoadStepKeeps(s: Sys, c: nat, l: Label)
    requires SysInv(s) && c < |s.pc| && s.pc[c].User? && l.Load?
    ensures SysInv(Step(s, c, l))
  {
    assert PcOk(s, c);
    var k' := ReadMail(s.k, s.k.cur[c].value);
    assert Step(s, c, l) == s.(k := k');
    LoadKernel(s, c, k');
    LoadOthers(s, k');
  }

  /** Positions and the lock do not depend on environments' contents. */
  lemma LoadOthers(s: Sys, k': K)
    requires Sized(s) && LockOk(s) && (forall d :: 0 <= d < |s.pc| ==> PcOk(s, d))
    requires k'.cur == s.k.cur && |k'.envs| == |s.k.envs|
    ensures Sized(s.(k := k')) && LockOk(s.(k := k')) && forall d :: 0 <= d < |s.pc| ==> PcOk(s.(k := k'), d)
  {
    forall d | 0 <= d < |s.pc| ensures PcOk(s.(k := k'), d) {
      assert PcOk(s, d);
    }
  }

  lemma StepKeeps(s: Sys, c: nat, l: Label)
    requires SysInv(s) && c < |s.pc| && Allowed(s, c, l)
    ensures SysInv(Step(s, c, l)) && |Step(s, c, l).pc| == |s.pc|
  {
    if s.pc[c].Work? {
      WorkStepKeeps(s, c, l);
    } else if s.pc[c].Resched? {
      ReschedStepKeeps(s, c, l);
    } else if s.pc[c].User? && l.Load? {
      LoadStepKeeps(s, c, l);
    } else if Outside(s, c, l) {
      OutsideStepKeeps(s, c, l);
    }
  }

  /** A run: any CPU takes the next step, in any order. */
  ghost predicate Run(ss: seq<Sys>, who: seq<nat>, ls: seq<Label>) {
    && |ss| == |who| + 1 && |ls| == |who|
    && forall i {:trigger who[i]} :: 0 <= i < |who| && Sized(ss[i]) ==>
         who[i] < |ss[i].pc| && Allowed(ss[i], who[i], ls[i]) && ss[i + 1] == Step(ss[i], who[i], ls[i])
  }

  lemma {:induction false} ReachableInv(ss: seq<Sys>, who: seq<nat>, ls: seq<Label>, n: nat)
    requires Run(ss, who, ls) && SysInv(ss[0]) && n < |ss|
    ensures SysInv(ss[n])
  {
    if n > 0 {
      ReachableInv(ss, who, ls, n - 1);
      var i := n - 1;
      assert who[i] < |ss[i].pc|;
      StepKeeps(ss[i], who[i], ls[i]);
    }
  }

  /** The machine before any CPU has taken the lock: no environments, nobody running. */
  lemma BootInv(s: Sys)
    requires |s.pc| == |s.k.cur| == |s.status| && |s.k.envs| > 0 && !s.locked && s.owner == None
    requires forall c :: 0 <= c < |s.pc| ==> s.pc[c] == Unstarted && s.k.cur[c] == None
    requires forall e :: 0 <= e < |s.k.envs| ==> s.k.envs[e].status == Free
    ensures SysInv(s)
  {
  }

  // ----- what the invariant says -----

  /** In every reachable state at most one CPU is inside the kernel, and none
      has run into "already holding", "spin_unlock" or assert(curenv). */
  lemma MutualExclusion(ss: seq<Sys>, who: seq<nat>, ls: seq<Label>, n: nat, c: nat, d: nat)
    requires Run(ss, who, ls) && SysInv(ss[0]) && n < |ss|
    requires c < |ss[n].pc| && d < |ss[n].pc|
    ensures Holds(ss[n].pc[c]) && Holds(ss[n].pc[d]) ==> c == d
    ensures !ss[n].pc[c].Panicked?
  {
    ReachableInv(ss, who, ls, n);
    assert PcOk(ss[n], c);
  }

  /** Whenever the kernel lock is free, an environment is RUNNING or DYING if
      and only if some CPU has it as cpu_env, and then exactly one has. */
  lemma OneCpuPerEnv(ss: seq<Sys>, who: seq<nat>, ls: seq<Label>, n: nat, e: nat)
    requires Run(ss, who, ls) && SysInv(ss[0]) && n < |ss|
    requires !ss[n].locked && e < |ss[n].k.envs|
    ensures InUse(ss[n].k.envs[e].status) <==> OnSomeCpu(ss[n].k, e)
    ensures var cur := ss[n].k.cur;
      forall c, d :: 0 <= c < |cur| && 0 <= d < |cur| && cur[c] == Some(e) && cur[d] == Some(e) ==> c == d
  {
    ReachableInv(ss, who, ls, n);
    var s := ss[n];
    forall c | 0 <= c < |s.pc| ensures !Mid(s.pc[c]) {
      assert !Holds(s.pc[c]);
    }
    if OnSomeCpu(s.k, e) {
      var c :| 0 <= c < |s.k.cur| && s.k.cur[c] == Some(e);
      assert CurOk(s.k, -1, c);
    }
  }

  /** Exactly once and in order: what an environment's receives returned is
      the sequence of successful sends to it, short of at most the one message
      that is delivered and not yet read. */
  lemma ExactlyOnce(ss: seq<Sys>, who: seq<nat>, ls: seq<Label>, n: nat, e: nat)
    requires Run(ss, who, ls) && SysInv(ss[0]) && n < |ss|
    requires e < |ss[n].k.envs| && ss[n].k.envs[e].status != Free
    ensures var env := ss[n].k.envs[e];
      && env.got <= env.sent && |env.sent| <= |env.got| + 1
      && (env.phase == Idle || env.phase == Blocked <==> env.got == env.sent)
      && (env.got != env.sent ==> env.sent[|env.got|] == Message(env.from, env.value))
  {
    ReachableInv(ss, who, ls, n);
    var s := ss[n];
    assert MailOk(s.k.envs[e]) by {
      if exists c :: 0 <= c < |s.pc| && Mid(s.pc[c]) {
        var c :| 0 <= c < |s.pc| && Mid(s.pc[c]);
        assert Base(s.k, c);
      } else {
        assert Base(s.k, -1);
      }
    }
  }

  predicate SameMessage(k: K, k': K, e: nat)
    requires e < |k.envs|
  {
    && e < |k'.envs|
    && (k'.envs[e].status != Free ==>
          k'.envs[e].from == k.envs[e].from && k'.envs[e].value == k.envs[e].value && k'.envs[e].perm == k.envs[e].perm)
  }

  lemma DispatchStable(k: K, c: nat, a: Action, e: nat)
    requires c < |k.cur| && k.cur[c].Some? && k.cur[c].value < |k.envs|
    requires e < |k.envs| && k.envs[e].status != Free && !k.envs[e].recving
    ensures SameMessage(k, Dispatch(k, c, a).0, e)
  {
  }

  lemma LeaveStable(k: K, c: nat, e: nat)
    requires c < |k.cur| && |k.envs| > 0 && (k.cur[c].Some? ==> k.cur[c].value < |k.envs|) && e < |k.envs|
    ensures SameMessage(k, SchedYield(k, c).0, e) && SameMessage(k, Return(k, c).0, e)
  {
  }

  /** A delivered message is never overwritten: until its receiver has read
      it, or is destroyed, no step of any CPU changes it. */
  lemma MessageStable(s: Sys, c: nat, l: Label, e: nat)
    requires SysInv(s) && c < |s.pc|
    requires e < |s.k.envs| && s.k.envs[e].status != Free
    requires s.k.envs[e].phase == Delivered || s.k.envs[e].phase.HalfRead?
    ensures SameMessage(s.k, Step(s, c, l).k, e)
  {
    assert PcOk(s, c);
    if s.pc[c].Work? {
      NobodyMid(s, c);
      assert MailOk(s.k.envs[e]);
      WorkStable(s, c, l, e);
    } else if s.pc[c].Resched? {
      LeaveStable(s.k, c, e);
    } else if Outside(s, c, l) {
      OutsideMoves(s, c, l);
    }
  }

  lemma WorkStable(s: Sys, c: nat, l: Label, e: nat)
    requires Sized(s) && c < |s.pc| && s.pc[c].Work? && PcOk(s, c)
    requires e < |s.k.envs| && s.k.envs[e].status != Free && !s.k.envs[e].recving
    ensures SameMessage(s.k, Step(s, c, l).k, e)
  {
    if s.pc[c].user {
      DispatchStable(s.k, c, if l.Do? then l.a else Other, e);
    }
  }

  /** A failed send changes no environment at all; a successful one changes the message fields
      of its target, which was blocked in receive, and nothing else; and it appends the
      sender's id and the value to what was sent to it. */
  lemma SendExact(k: K, c: nat, id: int, value: int, src: Va, perm: Flags, page: PageSend)
    requires Base(k, c) && c < |k.cur| && k.cur[c].Some? && k.cur[c].value < |k.envs|
    ensures var (k', code) := TrySend(k, c, id, value, src, perm, page);
      var t := Envid2env(k, c, id, false);
      && (code < 0 ==> k' == k)
      && (code == 0 <==>
            && t.Some? && k.envs[t.value].phase == Blocked && k.envs[t.value].status != Free
            && (PageAsked(src, k.envs[t.value].dstva) ==> page.PageOk?))
      && (code == 0 ==>
            var e := k.envs[t.value];
            && k' == k.(envs := k.envs[t.value := k'.envs[t.value]])
            && k'.envs[t.value] == e.(recving := false, status := Runnable, phase := Delivered,
                                      from := k.envs[k.cur[c].value].id, value := value,
                                      perm := if PageAsked(src, e.dstva) then perm else NO_FLAGS,
                                      sent := e.sent + [Message(k.envs[k.cur[c].value].id, value)]))
  {
    assert CurOk(k, c, c);
    var t := Envid2env(k, c, id, false);
    if t.Some? {
      assert k.envs[t.value].status != Free;
      assert MailOk(k.envs[t.value]);
    }
  }
}
