/** What a trap does to whom: which environment an id names, who can stop and
    start whom, and what becomes of a destroyed environment. */
module Traps {
  import opened Options
  import opened Addresses
  import opened Kernel
  import opened KernelInv
  import opened Sched
  import opened Smp

  /** An id in use carries its slot, as env_alloc makes it. */
  predicate IdsOk(k: K) {
    forall e :: 0 <= e < |k.envs| && k.envs[e].status != Free ==> k.envs[e].id != 0 && k.envs[e].id % |k.envs| == e
  }

  /** envid2env looks at one slot only, and yet finds the environment that has the id, wherever it is;
      id 0 names the caller; a call that needs permission gets itself and its children only. */
  lemma ResolvesIff(k: K, c: nat, id: int, checkperm: bool, e: nat)
    requires IdsOk(k) && c < |k.cur| && k.cur[c].Some? && k.cur[c].value < |k.envs|
    ensures var me := k.cur[c].value;
      Envid2env(k, c, id, checkperm) == Some(e) <==>
        && e < |k.envs|
        && (if id == 0 then e == me else k.envs[e].status != Free && k.envs[e].id == id)
        && (checkperm ==> e == me || k.envs[e].parent == k.envs[me].id)
  {
  }

  // ----- creating -----

  /** sys_exofork and env_create are handed ids as env_alloc makes them. */
  predicate NewIdOk(n: nat, slot: nat, id: int) {
    n > 0 && id != 0 && id % n == slot
  }

  /** sys_exofork: the new environment has its id, is the caller's child, cannot run yet and has received
      nothing; the caller can name it from then on, also in calls that need
      permission; no other record changes. */
  lemma ExoforkMakesChild(k: K, c: nat, slot: nat, id: int)
    requires IdsOk(k) && c < |k.cur| && k.cur[c].Some? && k.cur[c].value < |k.envs|
    requires k.envs[k.cur[c].value].status == Running && slot < |k.envs| && k.envs[slot].status == Free
    requires NewIdOk(|k.envs|, slot, id)
    ensures var (k', after) := Dispatch(k, c, Exofork(slot, id)); var me := k.cur[c].value;
      && after == Falls && k'.cur == k.cur && k'.envs == k.envs[slot := k'.envs[slot]]
      && k'.envs[slot].id == id && k'.envs[slot].parent == k.envs[me].id && k'.envs[slot].status == NotRunnable
      && !k'.envs[slot].recving && k'.envs[slot].phase == Idle && k'.envs[slot].sent == k'.envs[slot].got == []
      && IdsOk(k') && Envid2env(k', c, id, true) == Some(slot)
  {
  }

  /** What a step is told about a new environment. */
  predicate LabelOk(s: Sys, l: Label) {
    match l
    case Do(a) => a.Exofork? && a.slot < |s.k.envs| ==> NewIdOk(|s.k.envs|, a.slot, a.id)
    case Create(slot, id) => slot < |s.k.envs| ==> NewIdOk(|s.k.envs|, slot, id)
    case _ => true
  }

  lemma DispatchKeepsIds(k: K, c: nat, a: Action)
    requires IdsOk(k) && c < |k.cur| && k.cur[c].Some? && k.cur[c].value < |k.envs|
    requires a.Exofork? && a.slot < |k.envs| ==> NewIdOk(|k.envs|, a.slot, a.id)
    requires k.envs[k.cur[c].value].status != Free
    ensures IdsOk(Dispatch(k, c, a).0)
  {
    var k' := Dispatch(k, c, a).0;
    forall e | 0 <= e < |k'.envs| && k'.envs[e].status != Free ensures k'.envs[e].id != 0 && k'.envs[e].id % |k'.envs| == e {
    }
  }

  /** Over every step of every CPU ids stay those of their slots, so no two environments in use have one id. */
  lemma StepKeepsIds(s: Sys, c: nat, l: Label)
    requires SysInv(s) && c < |s.pc| && IdsOk(s.k) && LabelOk(s, l)
    ensures IdsOk(Step(s, c, l).k)
  {
    var s' := Step(s, c, l);
    assert PcOk(s, c);
    if s.pc[c].Work? {
      NobodyMid(s, c);
      if s.pc[c].user {
        UserCur(s.k, c);
        DispatchKeepsIds(s.k, c, if l.Do? then l.a else Other);
      }
    } else if s.pc[c].Resched? {
      assert Mid(s.pc[c]) && Base(s.k, c);
      LeaveKeepsIds(s, c, l);
    } else {
      forall e | 0 <= e < |s.k.envs| ensures |s'.k.envs| == |s.k.envs| && SameName(s'.k.envs[e], s.k.envs[e]) {
        ElsewhereNames(s, c, l, e);
      }
    }
  }

  predicate SameName(x: Env, y: Env) {
    x.id == y.id && x.parent == y.parent && (x.status == Free <==> y.status == Free)
  }

  lemma ElsewhereNames(s: Sys, c: nat, l: Label, e: nat)
    requires Sized(s) && c < |s.pc| && e < |s.k.envs| && !s.pc[c].Work? && !s.pc[c].Resched?
    ensures var s' := Step(s, c, l); |s'.k.envs| == |s.k.envs| && SameName(s'.k.envs[e], s.k.envs[e])
  {
  }

  lemma LeaveKeepsIds(s: Sys, c: nat, l: Label)
    requires SysInv(s) && c < |s.pc| && s.pc[c].Resched? && Base(s.k, c) && IdsOk(s.k)
    ensures IdsOk(Step(s, c, l).k)
  {
    var r := if s.pc[c].after.Falls? then Return(s.k, c) else SchedYield(s.k, c);
    assert Step(s, c, l) == Leave(s, c, r);
    forall e | 0 <= e < |s.k.envs| ensures |r.0.envs| == |s.k.envs| && r.0.envs[e].id == s.k.envs[e].id {
      SchedKeepsReady(s.k, c, e);
    }
    SchedYieldExact(s.k, c);
    ReturnExact(s.k, c);
  }

  // ----- destroying -----

  /** The environment that a trap by the environment on CPU c is to end. */
  function Victim(k: K, c: nat, a: Action): Option<nat>
    requires c < |k.cur| && k.cur[c].Some? && k.cur[c].value < |k.envs|
  {
    match a
    case Destroy(id) => Envid2env(k, c, id, true)
    case Fault => k.cur[c]
    case _ => None
  }

  /** A destroyed environment has run its last instruction or, if another CPU has it, is a zombie until
      that CPU's next trap. Only an environment that ends itself gives up its CPU; no other
      environment's record changes. */
  lemma DestroyEnds(k: K, c: nat, a: Action, e: nat)
    requires Base(k, -1) && c < |k.cur| && k.cur[c].Some? && k.cur[c].value < |k.envs|
    requires k.envs[k.cur[c].value].status == Running && Victim(k, c, a) == Some(e) && Polite(k, c, a)
    ensures var (k', after) := Dispatch(k, c, a);
      && e < |k.envs| && |k'.envs| == |k.envs| && !Ready(k'.envs[e].status)
      && (k'.envs[e].status == Dying <==> k.envs[e].status == Running && k.cur[c] != Some(e))
      && (k'.envs[e].status == Free <==> k'.envs[e].status != Dying)
      && k'.envs == k.envs[e := k.envs[e].(status := k'.envs[e].status)]
      && k'.cur == (if k.cur[c] == Some(e) then k.cur[c := None] else k.cur)
      && (after == Yields <==> k.cur[c] == Some(e))
  {
  }

  /** The next trap of the CPU that has a zombie frees it, whatever the trap is for. */
  lemma ZombieReaped(k: K, c: nat, a: Action)
    requires c < |k.cur| && k.cur[c].Some? && k.cur[c].value < |k.envs| && k.envs[k.cur[c].value].status == Dying
    ensures var (k', after) := Dispatch(k, c, a); var e := k.cur[c].value;
      after == Yields && k'.cur == k.cur[c := None] && k'.envs == k.envs[e := k.envs[e].(status := Free)]
  {
  }

  // ----- who can stop and start whom -----

  /** Environment e can no longer run after this trap by the environment on CPU c... */
  predicate Stops(k: K, c: nat, a: Action, e: nat)
    requires c < |k.cur| && k.cur[c].Some? && k.cur[c].value < |k.envs|
  {
    match a
    case Destroy(id) => Envid2env(k, c, id, true) == Some(e)
    case Fault => k.cur[c] == Some(e)
    case SetStatus(id, st) => st == NotRunnable && Envid2env(k, c, id, true) == Some(e)
    case Recv(dstva) => k.cur[c] == Some(e) && (dstva.Low? ==> dstva.off == 0)
    case _ => false
  }

  /** ... or can from then on. */
  predicate Starts(k: K, c: nat, a: Action, e: nat)
    requires c < |k.cur| && k.cur[c].Some? && k.cur[c].value < |k.envs|
  {
    match a
    case SetStatus(id, st) => st == Runnable && Envid2env(k, c, id, true) == Some(e)
    case Send(id, _, src, _, page) =>
      Envid2env(k, c, id, false) == Some(e) && k.envs[e].recving && (PageAsked(src, k.envs[e].dstva) ==> page.PageOk?)
    case _ => false
  }

  lemma DispatchReady(k: K, c: nat, a: Action, e: nat)
    requires Base(k, -1) && c < |k.cur| && k.cur[c].Some? && k.cur[c].value < |k.envs| && e < |k.envs|
    requires k.envs[k.cur[c].value].status == Running && Polite(k, c, a)
    ensures var k' := Dispatch(k, c, a).0;
      && |k'.envs| == |k.envs|
      && (Ready(k'.envs[e].status) <==> if Stops(k, c, a, e) then false else Starts(k, c, a, e) || Ready(k.envs[e].status))
  {
  }

  /** Which traps go on to sched_yield instead of the end of trap(): a clock tick or sys_yield, a
      receive that blocks, and whatever ends the environment itself. */
  lemma YieldsIff(k: K, c: nat, a: Action)
    requires c < |k.cur| && k.cur[c].Some? && k.cur[c].value < |k.envs|
    ensures Dispatch(k, c, a).1 == Yields <==>
      || k.envs[k.cur[c].value].status == Dying || a.Timer? || Victim(k, c, a) == k.cur[c]
      || (a.Recv? && (a.dstva == High || a.dstva.off == 0))
  {
  }

  /** What a program sees of its receive: the two loads after it was woken return the sender and the value
      that the send stored, once. */
  lemma LoadsReturnMessage(k: K, b: int, e: nat)
    requires Base(k, b) && e < |k.envs| && k.envs[e].status != Free && k.envs[e].phase == Delivered
    ensures var k2 := ReadMail(ReadMail(k, e), e); var env := k.envs[e];
      && k2 == k.(envs := k.envs[e := env.(phase := Idle, got := env.got + [Message(env.from, env.value)])])
      && k2.envs[e].got == k2.envs[e].sent == env.sent
  {
    assert MailOk(k.envs[e]);
  }

  /** CPU c handles a trap for an environment that is not a zombie. */
  predicate Handles(s: Sys, c: nat, l: Label)
    requires Sized(s) && c < |s.pc|
  {
    s.pc[c] == Work(true) && l.Do? && s.k.cur[c].Some? && s.k.envs[s.k.cur[c].value].status == Running
  }

  /** Whether environment e is to be runnable or running after a step. */
  predicate ReadyAfter(s: Sys, c: nat, l: Label, e: nat)
    requires Sized(s) && c < |s.pc| && e < |s.k.envs|
  {
    if Handles(s, c, l) && Stops(s.k, c, l.a, e) then false
    else
      || (Handles(s, c, l) && Starts(s.k, c, l.a, e))
      || (s.pc[c] == Work(false) && l.Create? && l.slot == e && s.k.envs[e].status == Free)
      || Ready(s.k.envs[e].status)
  }

  lemma WorkReady(s: Sys, c: nat, l: Label, e: nat)
    requires SysInv(s) && c < |s.pc| && Allowed(s, c, l) && e < |s.k.envs| && s.pc[c].Work?
    ensures var s' := Step(s, c, l); |s'.k.envs| == |s.k.envs| && (Ready(s'.k.envs[e].status) <==> ReadyAfter(s, c, l, e))
  {
    assert PcOk(s, c);
    NobodyMid(s, c);
    if s.pc[c].user {
      var a := if l.Do? then l.a else Other;
      UserCur(s.k, c);
      if s.k.envs[s.k.cur[c].value].status == Running {
        DispatchReady(s.k, c, a, e);
      } else {
        ZombieReaped(s.k, c, a);
      }
    }
  }

  lemma ReschedReady(s: Sys, c: nat, l: Label, e: nat)
    requires SysInv(s) && c < |s.pc| && e < |s.k.envs| && s.pc[c].Resched?
    ensures var s' := Step(s, c, l); |s'.k.envs| == |s.k.envs| && (Ready(s'.k.envs[e].status) <==> ReadyAfter(s, c, l, e))
  {
    assert Mid(s.pc[c]) && Base(s.k, c);
    SchedKeepsReady(s.k, c, e);
    var r := if s.pc[c].after.Falls? then Return(s.k, c) else SchedYield(s.k, c);
    assert Step(s, c, l) == Leave(s, c, r);
  }

  lemma ElsewhereReady(s: Sys, c: nat, l: Label, e: nat)
    requires Sized(s) && c < |s.pc| && e < |s.k.envs| && !s.pc[c].Work? && !s.pc[c].Resched?
    ensures var s' := Step(s, c, l); |s'.k.envs| == |s.k.envs| && s'.k.envs[e].status == s.k.envs[e].status
  {
  }

  /** Over every step of every CPU: an environment is runnable or running after it if and only if it was
      before, unless the step is a trap that stops or starts it, or creates it. */
  lemma StepReady(s: Sys, c: nat, l: Label, e: nat)
    requires SysInv(s) && c < |s.pc| && Allowed(s, c, l) && e < |s.k.envs|
    ensures var s' := Step(s, c, l); |s'.k.envs| == |s.k.envs| && (Ready(s'.k.envs[e].status) <==> ReadyAfter(s, c, l, e))
  {
    if s.pc[c].Work? {
      WorkReady(s, c, l, e);
    } else if s.pc[c].Resched? {
      ReschedReady(s, c, l, e);
    } else {
      ElsewhereReady(s, c, l, e);
    }
  }

  /** A clock tick takes the CPU from the environment that has it and gives it to the one next round. */
  lemma TickSwitches(k: K, c: nat)
    requires Base(k, -1) && c < |k.cur| && k.cur[c].Some? && k.cur[c].value < |k.envs|
    requires k.envs[k.cur[c].value].status == Running && SomeRunnable(k)
    ensures Dispatch(k, c, Timer) == (k, Yields)
    ensures var k' := SchedYield(k, c).0;
      k'.cur[c].Some? && IsNext(k, c, k'.cur[c].value) && Switched(k, c, k'.cur[c].value, k')
  {
    UserCur(k, c);
    SchedYieldExact(k, c);
  }
}
