/** sys_ipc_try_send and sys_ipc_recv as code over the environments and physical
    memory together, and what lib/ipc.c makes of env_ipc_perm and env_ipc_dstva. */
module IpcPages {
  import opened Options
  import opened Errors
  import opened Addresses
  import opened Vm
  import opened PageTables
  import opened VmRuns
  import opened Pmap
  import opened PageSyscalls
  import opened Kernel
  import Cow

  function At(e: nat, v: Va): Site
    requires v.Low?
  {
    Page(e, v.pdx, v.ptx)
  }

  predicate InUser(lay: Layout, v: Va) {
    v.Low? ==> v.pdx < lay.userDirs && v.ptx < lay.entries
  }

  /** sys_ipc_try_send's tests on the page: of environment me at src, for environment t at dst. */
  predicate Sendable(vm: Vm, me: nat, src: Va, perm: Flags)
    requires src.Low?
  {
    src.off == 0 && !PermRejected(perm) && MapAllowed(vm, At(me, src), perm)
  }

  function PageVerdict(vm: Vm, me: nat, t: nat, src: Va, dst: Va, perm: Flags): PageSend {
    if !PageAsked(src, dst) then PageOk
    else if !Sendable(vm, me, src, perm) then PageError(false)
    else if dst != NULL_VA && WalkFails(vm, At(t, dst)) then PageError(true)
    else PageOk
  }

  /** What memory says to a send on CPU c to environment id. */
  function Answer(k: K, vm: Vm, c: nat, id: int, src: Va, perm: Flags): PageSend
    requires c < |k.cur| && k.cur[c].Some? && k.cur[c].value < |k.envs|
  {
    var t := Envid2env(k, c, id, false);
    if t.None? then PageOk else PageVerdict(vm, k.cur[c].value, t.value, src, k.envs[t.value].dstva, perm)
  }

  class Envs {
    var k: K

    constructor (k: K)
      ensures this.k == k
    {
      this.k := k;
    }

    /** Every environment has an address space, and slots record user addresses. */
    ghost predicate Placed(p: PhysMem)
      reads this, p
    {
      forall e :: 0 <= e < |k.envs| ==> InUser(p.lay, k.envs[e].dstva) && (k.envs[e].status != Free ==> Dir(e) in p.vm.names)
    }

    /** The environment on CPU c. */
    predicate RunsOn(c: nat)
      reads this
    {
      c < |k.cur| && k.cur[c].Some? && k.cur[c].value < |k.envs| && k.envs[k.cur[c].value].status != Free
    }

    /** sys_ipc_try_send. On every error no environment, no mapping and no memory has changed;
        on success exactly one page_insert has happened, at the receiver's address, or none. */
    method TrySend(p: PhysMem, c: nat, id: int, value: int, src: Va, perm: Flags) returns (r: int)
      requires p.Valid() && Placed(p) && InUser(p.lay, src) && RunsOn(c)
      modifies this, p`mem, p`refs, p`link, p`freeHead, p`vm
      ensures (k, r) == Kernel.TrySend(old(k), c, id, value, src, perm, Answer(old(k), old(p.vm), c, id, src, perm))
      ensures r < 0 ==> p.Valid() && k == old(k) && p.vm == old(p.vm) && p.mem == old(p.mem)
      ensures r <= 0 && Placed(p) && p.Linked() && SameData(old(p.vm), old(p.mem), p.mem)
      ensures r == 0 ==>
        var t := Envid2env(old(k), c, id, false).value;
        var dst := old(k).envs[t].dstva;
        if !PageMoves(src, dst) then p.Valid() && p.vm == old(p.vm) && p.mem == old(p.mem)
        else Delivers(old(p.vm), p.vm, At(old(k).cur[c].value, src), At(t, dst), perm) &&
             (Safe(old(p.vm), At(old(k).cur[c].value, src), At(t, dst)) ==> p.Valid())
    {
      var t := Envid2env(k, c, id, false);
      if t.None? {
        return -E_BAD_ENV;
      }
      var e := k.envs[t.value];
      if !e.recving {
        return -E_IPC_NOT_RECV;
      }
      if PageAsked(src, e.dstva) {
        r := SendPage(p, k.cur[c].value, t.value, src, e.dstva, perm);
        if r < 0 {
          return;
        }
      }
      k := Kernel.TrySend(k, c, id, value, src, perm, PageOk).0;
      return 0;
    }

    /** sys_ipc_recv: 0 stands for blocking. It fails exactly for a user address that is not page-aligned,
        and then nothing has changed. Otherwise the caller, and no other environment, can be sent to and
        not run; what it has received is still there; and its address is the one it gave, or the
        one recorded before if it gave none below UTOP. */
    method Recv(ghost p: PhysMem, c: nat, dstva: Va) returns (r: int)
      requires Placed(p) && InUser(p.lay, dstva) && RunsOn(c)
      modifies this
      ensures r == 0 || r == -E_INVAL
      ensures r == 0 <==> dstva == High || dstva.off == 0
      ensures r != 0 ==> k == old(k)
      ensures Placed(p) && k.cur == old(k).cur && |k.envs| == |old(k).envs|
      ensures forall e :: 0 <= e < |k.envs| && e != old(k).cur[c].value ==> k.envs[e] == old(k).envs[e]
      ensures r == 0 ==> var e, e0 := k.envs[k.cur[c].value], old(k).envs[k.cur[c].value];
        && e.recving && e.status == NotRunnable && e.dstva == (if dstva.Low? then dstva else e0.dstva)
        && (e.id, e.parent, e.from, e.value, e.perm, e.sent, e.got) == (e0.id, e0.parent, e0.from, e0.value, e0.perm, e0.sent, e0.got)
    {
      if dstva.Low? && dstva.off != 0 {
        return -E_INVAL;
      }
      k := RecvBlock(k, k.cur[c].value, dstva);
      return 0;
    }
  }

  /** One page_insert: the receiver's page is the sender's frame, and no other page of anyone has changed. */
  ghost predicate Delivers(vm: Vm, vm': Vm, s: Site, d: Site, perm: Flags)
    requires Inv(vm) && d.Page?
  {
    && s in vm.names && vm.names[s] < |vm.refs| && vm' == Insert(vm, d, vm.names[s], perm)
    && Flat(vm') == Flat(vm)[d := Mapping(vm.names[s], perm.(p := true))]
  }

  /** The frame's count does not wrap, or does not change. */
  ghost predicate Safe(vm: Vm, s: Site, d: Site) {
    s in vm.names && (NoWrap(vm, vm.names[s]) || (d in vm.names && vm.names[d] == vm.names[s]))
  }

  /** The page half: the tests, and page_insert unless the receiver's address is NULL. */
  method SendPage(p: PhysMem, me: nat, t: nat, src: Va, dst: Va, perm: Flags) returns (r: int)
    requires p.Valid() && Dir(me) in p.vm.names && Dir(t) in p.vm.names && PageAsked(src, dst)
    requires InUser(p.lay, src) && InUser(p.lay, dst)
    modifies p`mem, p`refs, p`link, p`freeHead, p`vm
    ensures r == match PageVerdict(old(p.vm), me, t, src, dst, perm) case PageOk => 0 case PageError(n) => if n then -E_NO_MEM else -E_INVAL
    ensures p.Linked() && SameData(old(p.vm), old(p.mem), p.mem) && SameDirs(old(p.vm), p.vm)
    ensures r != 0 || dst == NULL_VA ==> p.Valid() && p.vm == old(p.vm) && p.mem == old(p.mem)
    ensures r == 0 && dst != NULL_VA ==> Delivers(old(p.vm), p.vm, At(me, src), At(t, dst), perm)
    ensures r == 0 && dst != NULL_VA && Safe(old(p.vm), At(me, src), At(t, dst)) ==> p.Valid()
  {
    if src.off != 0 || PermRejected(perm) {
      return -E_INVAL;
    }
    var found := p.PageLookup(me, src.pdx, src.ptx);
    if found.Fault? || (perm.w && !found.flags.w) {
      return -E_INVAL;
    }
    assert found.frame == p.vm.names[At(me, src)] && found.flags == p.vm.perm[At(me, src)];
    if dst == NULL_VA {
      return 0;
    }
    PageFrameIsUser(p.vm, At(me, src));
    r := MapTail(p, found.frame, t, dst.pdx, dst.ptx, perm);
  }

  // ----- what the receiver can tell -----

  /** The documentation of sys_ipc_try_send: env_ipc_perm is perm if a page was transferred, and
      0 otherwise. That is so exactly unless a page was offered to a receiver at address NULL. */
  lemma PermTellsTransferIff(k: K, c: nat, id: int, value: int, src: Va, perm: Flags, page: PageSend)
    requires c < |k.cur| && k.cur[c].Some? && k.cur[c].value < |k.envs|
    requires Kernel.TrySend(k, c, id, value, src, perm, page).1 == 0
    ensures var t := Envid2env(k, c, id, false).value;
      var dst, got := k.envs[t].dstva, Kernel.TrySend(k, c, id, value, src, perm, page).0.envs[t].perm;
      && (got == (if PageMoves(src, dst) then perm else NO_FLAGS) <==> !(src.Low? && dst == NULL_VA && perm != NO_FLAGS))
      && (got != NO_FLAGS && !PageMoves(src, dst) <==> src.Low? && dst == NULL_VA && perm != NO_FLAGS)
  {
  }

  /** A receiver that asks for no page, with an address at or above UTOP, is sent one at the address
      of an earlier call exactly when there was one, it was not NULL, and the sender offers a page. */
  lemma StaleAddressIff(k: K, e: nat, src: Va)
    requires e < |k.envs|
    ensures var dst := RecvBlock(k, e, High).envs[e].dstva;
      && (PageMoves(src, dst) <==> src.Low? && k.envs[e].dstva.Low? && k.envs[e].dstva != NULL_VA)
      && (PageMoves(src, dst) ==> dst == k.envs[e].dstva)
  {
  }

  /** env_alloc does not clear the address either: it may be that of an earlier environment in the slot. */
  lemma StaleFromPredecessorIff(k: K, e: nat, id: int, parent: int, st: Status, src: Va)
    requires e < |k.envs|
    ensures var dst := RecvBlock(EnvAlloc(k, e, id, parent, st), e, High).envs[e].dstva;
      PageMoves(src, dst) <==> src.Low? && k.envs[e].dstva.Low? && k.envs[e].dstva != NULL_VA
  {
    StaleAddressIff(EnvAlloc(k, e, id, parent, st), e, src);
  }

  /** ipc_recv(pg): the test that should turn NULL into "no page" has no effect. */
  function LibRecvArg(pg: Va): Va {
    pg
  }

  /** ipc_recv promises that *perm_store is non-zero exactly if a page was transferred to pg. For an
      address below UTOP that holds, of every message that can arrive, exactly if pg is not NULL or
      the sender offers no page. */
  lemma LibRecvPermIff(k: K, e: nat, pg: Va, c: nat, id: int, value: int, src: Va, perm: Flags, page: PageSend)
    requires e < |k.envs| && pg.Low? && perm != NO_FLAGS
    requires c < |k.cur| && k.cur[c].Some? && k.cur[c].value < |k.envs|
    requires var k1 := RecvBlock(k, e, LibRecvArg(pg));
      Envid2env(k1, c, id, false) == Some(e) && Kernel.TrySend(k1, c, id, value, src, perm, page).1 == 0
    ensures var k1 := RecvBlock(k, e, LibRecvArg(pg));
      var got := Kernel.TrySend(k1, c, id, value, src, perm, page).0.envs[e].perm;
      (got != NO_FLAGS <==> PageMoves(src, pg)) <==> pg != NULL_VA || !src.Low?
  {
  }

  // ----- both failures, from a booted memory -----

  /** Environment 0 on CPU 0 and environment 1 on CPU 1, which have not used IPC. */
  function TwoRunning(): K {
    K([Env(4096, 0, Running, false, NULL_VA, NO_FLAGS, 0, 0, Idle, [], []),
       Env(4097, 0, Running, false, NULL_VA, NO_FLAGS, 0, 0, Idle, [], [])], [Some(0), Some(1)])
  }

  /** Memory with five free frames and nothing mapped; where the self-map goes. */
  ghost predicate Booted(p: PhysMem, uvpt: nat)
    reads p
  {
    && p.Valid() && p.vm.names == map[] && |p.vm.free| >= 5
    && |p.pgdir| >= 2 && p.lay.userDirs <= uvpt < p.lay.entries
  }

  predicate PageAddress(lay: Layout, v: Va) {
    v.Low? && v.off == 0 && InUser(lay, v)
  }

  /** env_setup_vm for a slot that has none, when a frame is free. */
  lemma SetupAdds(vm: Vm, e: nat, vm': Vm)
    requires Inv(vm) && vm.free != [] && Next(vm, SetupVm(e), vm')
    ensures vm'.names == vm.names[Dir(e) := vm.free[0]] && vm'.perm == vm.perm && |vm'.free| == |vm.free| - 1
  {
  }

  /** sys_page_alloc uses up two frames at most. */
  lemma AllocLeaves(vm: Vm, e: nat, i: nat, j: nat, perm: Flags, vm': Vm)
    requires Inv(vm) && |vm.free| >= 3 && Next(vm, PageAlloc(Some(e), i, j, perm), vm') && Page(e, i, j) !in vm.names
    ensures vm'.free != []
  {
  }

  lemma EmptyFlat(vm: Vm)
    requires vm.perm == map[]
    ensures Flat(vm) == map[]
  {
  }

  /** A writable page in a frame with one reference can be sent. */
  lemma OnePageSendable(vm: Vm, src: Va)
    requires src.Low? && src.off == 0 && At(1, src) in Flat(vm) && Flat(vm)[At(1, src)].flags == Cow.PUW
    requires Flat(vm)[At(1, src)].frame < |vm.refs| && vm.refs[Flat(vm)[At(1, src)].frame] == 1
    ensures Sendable(vm, 1, src, Cow.PUW) && NoWrap(vm, vm.names[At(1, src)])
  {
  }

  method TwoDirectories(p: PhysMem, uvpt: nat)
    requires Booted(p, uvpt)
    modifies p
    ensures p.Valid() && Dir(0) in p.vm.names && Dir(1) in p.vm.names && |p.vm.free| >= 3 && p.vm.perm == map[]
  {
    assert p.vm.perm == map[];
    ghost var vm0 := p.vm;
    var r := p.EnvSetupVm(0, uvpt);
    SetupAdds(vm0, 0, p.vm);
    ghost var vm1 := p.vm;
    r := p.EnvSetupVm(1, uvpt);
    SetupAdds(vm1, 1, p.vm);
  }

  /** Environment 1 has one page, at src, which can be sent; environment 0 has none. */
  ghost predicate OnePage(p: PhysMem, src: Va)
    requires src.Low?
    reads p
  {
    && p.Valid() && Dir(0) in p.vm.names && Dir(1) in p.vm.names && p.vm.free != []
    && (forall s :: s in Flat(p.vm) ==> s == At(1, src))
    && Sendable(p.vm, 1, src, Cow.PUW) && NoWrap(p.vm, p.vm.names[At(1, src)])
  }

  method TwoSpaces(p: PhysMem, src: Va, uvpt: nat)
    requires Booted(p, uvpt) && PageAddress(p.lay, src)
    modifies p
    ensures OnePage(p, src)
  {
    TwoDirectories(p, uvpt);
    EmptyFlat(p.vm);
    ghost var vm2 := p.vm;
    assert At(1, src) !in vm2.names;
    var r := SysPageAlloc(p, Some(1), src.pdx, src.ptx, Cow.PUW);
    AllocLeaves(vm2, 1, src.pdx, src.ptx, Cow.PUW, p.vm);
    OnePageSendable(p.vm, src);
  }

  /** Environment 0 waits, or not, and environment 1 is on CPU 1. */
  predicate Pair(k: K, waits: bool) {
    && |k.envs| == 2 && k.cur == [Some(0), Some(1)] && k.envs[0].id == 4096 && k.envs[1].status == Running
    && k.envs[0].status != Free && k.envs[0].recving == waits
  }

  /** A send by environment 1 to environment 0 that memory accepts. */
  lemma PairSends(k: K, src: Va, perm: Flags)
    requires Pair(k, true)
    ensures Envid2env(k, 1, 4096, false) == Some(0)
    ensures var (k', r) := Kernel.TrySend(k, 1, 4096, 7, src, perm, PageOk);
      && r == 0 && Pair(k', false) && k'.envs[0].dstva == k.envs[0].dstva
      && k'.envs[0].perm == if PageAsked(src, k.envs[0].dstva) then perm else NO_FLAGS
  {
  }

  /** Memory accepts a page that can be sent while a frame is free, and no page. */
  lemma PairAccepted(k: K, vm: Vm, src: Va, perm: Flags)
    requires Pair(k, true) && (src == High || (Sendable(vm, 1, src, perm) && vm.free != []))
    ensures Answer(k, vm, 1, 4096, src, perm) == PageOk
  {
  }

  /** Environment 0 waits to receive at v. */
  method Waiting(ghost p: PhysMem, v: Va) returns (es: Envs)
    requires Dir(0) in p.vm.names && Dir(1) in p.vm.names && PageAddress(p.lay, v) && InUser(p.lay, NULL_VA)
    ensures fresh(es) && es.Placed(p) && Pair(es.k, true) && es.k.envs[0].dstva == v
  {
    es := new Envs(TwoRunning());
    var r := es.Recv(p, 0, v);
  }

  /** ipc_recv(NULL) by environment 0, then a page sent by environment 1: a permission is
      reported, and environment 0 has no page. */
  method PermWithoutPage(p: PhysMem, src: Va, uvpt: nat) returns (es: Envs)
    requires Booted(p, uvpt) && PageAddress(p.lay, src)
    modifies p
    ensures p.Valid() && |es.k.envs| == 2 && es.k.envs[0].perm == Cow.PUW && forall s :: s in Flat(p.vm) ==> s.env != 0
  {
    TwoSpaces(p, src, uvpt);
    es := Waiting(p, LibRecvArg(NULL_VA));
    PairSends(es.k, src, Cow.PUW);
    PairAccepted(es.k, p.vm, src, Cow.PUW);
    var r := es.TrySend(p, 1, 4096, 7, src, Cow.PUW);
  }

  /** Environment 0 receives at v, and again asking for no page; it is sent one at v. */
  method PageAtStaleAddress(p: PhysMem, src: Va, v: Va, uvpt: nat) returns (es: Envs)
    requires Booted(p, uvpt) && PageAddress(p.lay, src) && PageAddress(p.lay, v) && v != NULL_VA
    modifies p
    ensures p.Valid() && At(0, v) in Flat(p.vm) && At(1, src) in Flat(p.vm)
    ensures Flat(p.vm)[At(0, v)].frame == Flat(p.vm)[At(1, src)].frame
  {
    TwoSpaces(p, src, uvpt);
    assert At(1, src) in Flat(p.vm);
    es := ReceiveAt(p, v);
    var r := es.Recv(p, 0, High);
    PairSends(es.k, src, Cow.PUW);
    PairAccepted(es.k, p.vm, src, Cow.PUW);
    r := es.TrySend(p, 1, 4096, 7, src, Cow.PUW);
  }

  /** A message without a page, received at v. */
  method ReceiveAt(p: PhysMem, v: Va) returns (es: Envs)
    requires p.Valid() && Dir(0) in p.vm.names && Dir(1) in p.vm.names && PageAddress(p.lay, v) && InUser(p.lay, NULL_VA)
    modifies p`mem, p`refs, p`link, p`freeHead, p`vm
    ensures fresh(es) && es.Placed(p) && Pair(es.k, false) && es.k.envs[0].dstva == v
    ensures p.Valid() && p.vm == old(p.vm)
  {
    es := Waiting(p, v);
    PairSends(es.k, High, NO_FLAGS);
    PairAccepted(es.k, p.vm, High, NO_FLAGS);
    var r := es.TrySend(p, 1, 4096, 7, High, NO_FLAGS);
  }
}
