/** Environment status, IPC fields and cpu_env: what kern/env.c, kern/sched.c,
    kern/trap.c and kern/syscall.c do to them while holding the kernel lock. */
module Kernel {
  import opened Options
  import opened Errors
  import opened Addresses
  import opened Vm

  datatype Status = Free | Dying | Runnable | Running | NotRunnable

  /** Where the user side of an environment stands in ipc_recv: not in it,
      blocked in sys_ipc_recv, woken with a message it has not read, or with
      the sender's id read and the value not yet. */
  datatype Phase = Idle | Blocked | Delivered | HalfRead(from: int)

  datatype Message = Message(from: int, value: int)

  /** struct Env without its address space, plus two histories: the successful
      sends to this environment, and what its ipc_recv calls returned. */
  datatype Env = Env(
    id: int,
    parent: int,
    status: Status,
    recving: bool,
    dstva: Va,
    perm: Flags,
    from: int,
    value: int,
    phase: Phase,
    sent: seq<Message>,
    got: seq<Message>)

  /** envs[] and, per CPU, cpu_env. */
  datatype K = K(envs: seq<Env>, cur: seq<Option<nat>>)

  predicate InUse(st: Status) {
    st == Running || st == Dying
  }

  // ----- kern/env.c -----

  /** envid2env: a slot, or None for E_BAD_ENV. */
  function Envid2env(k: K, c: nat, id: int, checkperm: bool): (r: Option<nat>)
    requires c < |k.cur| && k.cur[c].Some? && k.cur[c].value < |k.envs|
    ensures r.Some? ==> r.value < |k.envs|
  {
    if id == 0 then k.cur[c]
    else
      var e := id % |k.envs|;
      var me := k.cur[c].value;
      if k.envs[e].status == Free || k.envs[e].id != id then None
      else if checkperm && e != me && k.envs[e].parent != k.envs[me].id then None
      else Some(e)
  }

  function SetStatusAt(k: K, e: nat, st: Status): K
    requires e < |k.envs|
  {
    k.(envs := k.envs[e := k.envs[e].(status := st)])
  }

  function SetCur(k: K, c: nat, v: Option<nat>): K
    requires c < |k.cur|
  {
    k.(cur := k.cur[c := v])
  }

  /** env_free, for the status. */
  function EnvFree(k: K, e: nat): K
    requires e < |k.envs|
  {
    SetStatusAt(k, e, Free)
  }

  /** env_alloc of free slot e, left in status st, with nothing received yet. */
  function EnvAlloc(k: K, e: nat, id: int, parent: int, st: Status): K
    requires e < |k.envs|
  {
    k.(envs := k.envs[e := k.envs[e].(id := id, parent := parent, status := st, recving := false,
                                      phase := Idle, sent := [], got := [])])
  }

  /** env_run: the old environment goes back to ENV_RUNNABLE if it was running. */
  function EnvRun(k: K, c: nat, e: nat): K
    requires c < |k.cur| && e < |k.envs|
    requires k.cur[c].Some? ==> k.cur[c].value < |k.envs|
  {
    var k1 := if k.cur[c].Some? && k.envs[k.cur[c].value].status == Running
              then SetStatusAt(k, k.cur[c].value, Runnable) else k;
    SetStatusAt(SetCur(k1, c, Some(e)), e, Running)
  }

  // ----- kern/sched.c -----

  /** The j-th slot after start, circularly. */
  function Slot(n: nat, start: nat, j: nat): (r: nat)
    requires start < n && j <= n
    ensures r < n
  {
    if start + j < n then start + j else start + j - n
  }

  /** The least j >= i whose slot is runnable; the number of slots if there is none. */
  function Search(envs: seq<Env>, start: nat, i: nat): (j: nat)
    requires start < |envs| && i <= |envs|
    ensures i <= j <= |envs|
    ensures j < |envs| ==> envs[Slot(|envs|, start, j)].status == Runnable
    ensures forall x :: i <= x < j ==> envs[Slot(|envs|, start, x)].status != Runnable
    decreases |envs| - i
  {
    if i == |envs| then i
    else if envs[Slot(|envs|, start, i)].status == Runnable then i
    else Search(envs, start, i + 1)
  }

  function Start(k: K, c: nat): nat
    requires c < |k.cur| && |k.envs| > 0
  {
    if k.cur[c].Some? then (k.cur[c].value + 1) % |k.envs| else 0
  }

  /** How the kernel is left: to user mode, to the halt loop, or never (the monitor). */
  datatype Exit = ToUser | ToHalt | ToMonitor

  ghost predicate Wanted(envs: seq<Env>) {
    exists i :: 0 <= i < |envs| && (envs[i].status == Runnable || InUse(envs[i].status))
  }

  /** sched_yield, and sched_halt when nothing can run. */
  ghost function SchedYield(k: K, c: nat): (r: (K, Exit))
    requires c < |k.cur| && |k.envs| > 0
    requires k.cur[c].Some? ==> k.cur[c].value < |k.envs|
  {
    var j := Search(k.envs, Start(k, c), 0);
    if j < |k.envs| then (EnvRun(k, c, Slot(|k.envs|, Start(k, c), j)), ToUser)
    else if k.cur[c].Some? && k.envs[k.cur[c].value].status == Running then (EnvRun(k, c, k.cur[c].value), ToUser)
    else if Wanted(k.envs) then (SetCur(k, c, None), ToHalt)
    else (k, ToMonitor)
  }

  /** The end of trap(): resume the current environment, or reschedule. */
  ghost function Return(k: K, c: nat): (r: (K, Exit))
    requires c < |k.cur| && |k.envs| > 0
    requires k.cur[c].Some? ==> k.cur[c].value < |k.envs|
  {
    if k.cur[c].Some? && k.envs[k.cur[c].value].status == Running
    then (EnvRun(k, c, k.cur[c].value), ToUser)
    else SchedYield(k, c)
  }

  // ----- kern/trap.c and kern/syscall.c -----

  datatype Action =
    | Timer                                   // clock interrupt or sys_yield
    | Other                                   // anything that leaves status and IPC fields alone
    | Destroy(target: int)                    // sys_env_destroy
    | Fault                                   // unhandled exception: env_destroy(curenv)
    | Exofork(slot: nat, id: int)             // sys_exofork
    | SetStatus(target: int, st: Status)      // sys_env_set_status
    | Send(target: int, value: int, src: Va, perm: Flags, page: PageSend)
    | Recv(dstva: Va)

  /** What memory says to the page half of sys_ipc_try_send; module IpcPages computes it. */
  datatype PageSend = PageOk | PageError(noMem: bool)

  /** What trap() does after dispatch: fall through to its end, or call sched_yield. */
  datatype After = Falls | Yields

  /** env_destroy by the environment on CPU c. */
  function EnvDestroy(k: K, c: nat, e: nat): (K, After)
    requires c < |k.cur| && e < |k.envs|
  {
    if k.envs[e].status == Running && k.cur[c] != Some(e) then (SetStatusAt(k, e, Dying), Falls)
    else if k.cur[c] == Some(e) then (SetCur(EnvFree(k, e), c, None), Yields)
    else (EnvFree(k, e), Falls)
  }

  /** Both sides name an address below UTOP. */
  predicate PageAsked(src: Va, dst: Va) {
    src.Low? && dst.Low?
  }

  /** And the receiver's is not NULL, so that page_insert is called. */
  predicate PageMoves(src: Va, dst: Va) {
    PageAsked(src, dst) && dst != NULL_VA
  }

  /** sys_ipc_try_send: the code, and the state after it. */
  function TrySend(k: K, c: nat, id: int, value: int, src: Va, perm: Flags, page: PageSend): (r: (K, int))
    requires c < |k.cur| && k.cur[c].Some? && k.cur[c].value < |k.envs|
  {
    var t := Envid2env(k, c, id, false);
    if t.None? then (k, -E_BAD_ENV)
    else if !k.envs[t.value].recving then (k, -E_IPC_NOT_RECV)
    else if PageAsked(src, k.envs[t.value].dstva) && page.PageError? then (k, if page.noMem then -E_NO_MEM else -E_INVAL)
    else
      var me := k.envs[k.cur[c].value].id;
      var e := k.envs[t.value];
      var e' := e.(recving := false, from := me, value := value, status := Runnable,
                   perm := if PageAsked(src, e.dstva) then perm else NO_FLAGS,
                   phase := Delivered, sent := e.sent + [Message(me, value)]);
      (k.(envs := k.envs[t.value := e']), 0)
  }

  /** sys_ipc_recv's rejection of an unaligned address. */
  predicate RecvRejects(dstva: Va) {
    dstva.Low? && dstva.off != 0
  }

  /** sys_ipc_recv otherwise; an address at or above UTOP is not recorded. */
  function RecvBlock(k: K, e: nat, dstva: Va): K
    requires e < |k.envs|
  {
    k.(envs := k.envs[e := k.envs[e].(dstva := if dstva.Low? then dstva else k.envs[e].dstva,
                                      recving := true, status := NotRunnable, phase := Blocked)])
  }

  /** trap_dispatch for a trap from user mode on CPU c. */
  function Dispatch(k: K, c: nat, a: Action): (r: (K, After))
    requires c < |k.cur| && k.cur[c].Some? && k.cur[c].value < |k.envs|
  {
    var me := k.cur[c].value;
    if k.envs[me].status == Dying then (SetCur(EnvFree(k, me), c, None), Yields)
    else
      match a
      case Timer => (k, Yields)
      case Other => (k, Falls)
      case Destroy(id) =>
        var t := Envid2env(k, c, id, true);
        if t.None? then (k, Falls) else EnvDestroy(k, c, t.value)
      case Fault => EnvDestroy(k, c, me)
      case Exofork(slot, id) =>
        if slot < |k.envs| && k.envs[slot].status == Free
        then (EnvAlloc(k, slot, id, k.envs[me].id, NotRunnable), Falls) else (k, Falls)
      case SetStatus(id, st) =>
        var t := Envid2env(k, c, id, true);
        if t.None? || !(st == Runnable || st == NotRunnable) then (k, Falls) else (SetStatusAt(k, t.value, st), Falls)
      case Send(id, value, src, perm, page) => (TrySend(k, c, id, value, src, perm, page).0, Falls)
      case Recv(dstva) => if RecvRejects(dstva) then (k, Falls) else (RecvBlock(k, me, dstva), Yields)
  }
}
