/** Runs of the system calls and environment operations that touch page
    tables (kern/syscall.c, kern/env.c), over the flat state of module Vm. */
module VmRuns {
  import opened Counting
  import opened Options
  import opened Vm

  // ----- env_free: a sequence of cleared sites, children before parents -----

  /** Nothing hangs off site s. */
  ghost predicate Childless(vm: Vm, s: Site) {
    forall c :: c in vm.names && c != s ==> ParentIn(vm.names - {s}, c)
  }

  ghost predicate Drops(vm: Vm, order: seq<Site>, vm': Vm)
    decreases |order|
  {
    if order == [] then vm' == vm
    else
      && order[0] in vm.names && vm.names[order[0]] < |vm.refs|
      && Childless(vm, order[0])
      && Drops(Drop(vm, order[0]), order[1..], vm')
  }

  lemma {:induction false} DropsAppend(vm: Vm, order: seq<Site>, mid: Vm, s: Site)
    requires Drops(vm, order, mid)
    requires s in mid.names && mid.names[s] < |mid.refs| && Childless(mid, s)
    ensures Drops(vm, order + [s], Drop(mid, s))
    decreases |order|
  {
    if order == [] {
      assert order + [s] == [s];
      assert Drops(Drop(mid, s), [], Drop(mid, s));
    } else {
      DropsAppend(Drop(vm, order[0]), order[1..], mid, s);
      assert (order + [s])[1..] == order[1..] + [s];
    }
  }

  lemma {:induction false} DropsKeepInv(vm: Vm, order: seq<Site>, vm': Vm)
    requires Inv(vm) && Drops(vm, order, vm')
    ensures Inv(vm') && SameLeaks(vm, vm')
    ensures vm'.reserved == vm.reserved && |vm'.refs| == |vm.refs|
    decreases |order|
  {
    if order != [] {
      DropKeepsInv(vm, order[0]);
      var u := Drop(vm, order[0]);
      DropsKeepInv(u, order[1..], vm');
      forall f: nat ensures LeakedAt(vm, f) <==> LeakedAt(vm', f) {
        assert LeakedAt(vm, f) <==> LeakedAt(u, f);
      }
    }
  }

  function Others(names: map<Site, nat>, e: nat): map<Site, nat> {
    names - set s | s in names && s.env == e
  }

  function Own(names: map<Site, nat>, e: nat): map<Site, nat> {
    names - set s | s in names && s.env != e
  }

  /** env_free(e): e's sites are cleared one by one, and only those. */
  ghost predicate EnvFreed(vm: Vm, e: nat, vm': Vm) {
    && vm'.names == Others(vm.names, e)
    && exists order :: Drops(vm, order, vm')
  }

  /** env_free lowers each count by exactly e's own references, and puts on
      the free list exactly the frames that only e referenced. */
  lemma EnvFreeExact(vm: Vm, e: nat, vm': Vm, f: nat)
    requires Inv(vm) && EnvFreed(vm, e, vm') && Managed(vm, f)
    ensures Inv(vm') && SameLeaks(vm, vm')
    ensures |vm'.refs| == |vm.refs| && vm'.refs[f] == vm.refs[f] - Count(Own(vm.names, e), f)
    ensures f in vm'.free <==>
            f in vm.free || (Named(vm, f) && forall s :: s in vm.names && vm.names[s] == f ==> s.env == e)
  {
    var order :| Drops(vm, order, vm');
    DropsKeepInv(vm, order, vm');
    assert CountedAt(vm, f) && CountedAt(vm', f);
    OwnCount(vm.names, e, f);
    assert LeakedAt(vm, f) <==> LeakedAt(vm', f);
    OnlyOwn(vm, e, vm', f);
    assert f in vm.free ==> !Named(vm, f);
    assert f in vm'.free ==> !Named(vm', f);
  }

  lemma OwnCount(names: map<Site, nat>, e: nat, f: nat)
    ensures Count(names, f) == Count(Own(names, e), f) + Count(Others(names, e), f)
  {
    assert names == Own(names, e) + Others(names, e);
    CountSplit(names, Own(names, e), Others(names, e), f);
  }

  lemma OnlyOwn(vm: Vm, e: nat, vm': Vm, f: nat)
    requires vm'.names == Others(vm.names, e)
    ensures Named(vm', f) ==> Named(vm, f)
    ensures Named(vm', f) <==> !(forall s :: s in vm.names && vm.names[s] == f ==> s.env == e)
  {
    if s :| s in vm.names && vm.names[s] == f && s.env != e {
      assert s in vm'.names && vm'.names[s] == f;
    }
    if s :| s in vm'.names && vm'.names[s] == f {
      assert s in vm.names && vm.names[s] == f && s.env != e;
    }
  }

  // ----- the operations a run is made of -----

  /** An environment argument is None when envid2env rejects the id. */
  datatype Op =
    | PageAlloc(env: Option<nat>, pdx: nat, ptx: nat, perm: Flags)
    | PageMap(src: Site, dst: Site, perm: Flags)
    | PageUnmap(at: Site)
    | SetupVm(e: nat)
    | FreeEnv(e: nat)

  /** What the caller's checks guarantee: the environments exist and the sites are user pages. */
  predicate Legal(vm: Vm, op: Op) {
    match op
    case PageAlloc(env, _, _, _) => env.Some? ==> Dir(env.value) in vm.names
    case PageMap(src, dst, _) => src.Page? && dst.Page? && Dir(src.env) in vm.names && Dir(dst.env) in vm.names
    case PageUnmap(at) => at.Page? && Dir(at.env) in vm.names
    case SetupVm(e) => Dir(e) !in vm.names
    case FreeEnv(e) => Dir(e) in vm.names
  }

  /** sys_page_alloc: the page is taken before the environment is checked. */
  function AllocAndMap(vm: Vm, env: Option<nat>, pdx: nat, ptx: nat, perm: Flags): Vm
    requires Inv(vm)
  {
    if vm.free == [] then vm
    else
      TakeKeepsInv(vm);
      var f, taken := vm.free[0], Take(vm);
      if env.None? then taken
      else
        var s := Page(env.value, pdx, ptx);
        if WalkFails(taken, s) then Give(taken, f) else Insert(taken, s, f, perm)
  }

  predicate MapAllowed(vm: Vm, src: Site, perm: Flags) {
    src in vm.names && src in vm.perm && (perm.w ==> vm.perm[src].w)
  }

  ghost predicate Next(vm: Vm, op: Op, vm': Vm)
    requires Inv(vm)
  {
    match op
    case PageAlloc(env, pdx, ptx, perm) => vm' == AllocAndMap(vm, env, pdx, ptx, perm)
    case PageMap(src, dst, perm) =>
      vm' == if dst.Page? && MapAllowed(vm, src, perm) then Insert(vm, dst, vm.names[src], perm) else vm
    case PageUnmap(at) => vm' == Remove(vm, at)
    case SetupVm(e) =>
      if vm.free == [] then vm' == vm
      else TakeKeepsInv(vm); vm' == Add(Take(vm), Dir(e), vm.free[0], NO_FLAGS)
    case FreeEnv(e) => EnvFreed(vm, e, vm')
  }

  /** Mapping the frame at src also at dst does not take its 16-bit count past 65535. */
  predicate CountFits(vm: Vm, src: Site, dst: Site) {
    src in vm.names ==> NoWrap(vm, vm.names[src]) || (dst in vm.names && vm.names[dst] == vm.names[src])
  }

  /** The 16-bit hypothesis: no frame is mapped at one more site with 65535 references. */
  predicate Fits(vm: Vm, op: Op) {
    op.PageMap? && op.dst.Page? && MapAllowed(vm, op.src, op.perm) && !WalkFails(vm, op.dst) ==>
      CountFits(vm, op.src, op.dst)
  }

  lemma PageFrameIsUser(vm: Vm, s: Site)
    requires Inv(vm) && s in vm.names && s.Page?
    ensures UserFrame(vm, vm.names[s]) && Named(vm, vm.names[s])
  {
  }

  lemma AllocAndMapKeepsInv(vm: Vm, env: Option<nat>, pdx: nat, ptx: nat, perm: Flags)
    requires Inv(vm)
    requires env.Some? ==> Dir(env.value) in vm.names
    ensures Inv(AllocAndMap(vm, env, pdx, ptx, perm))
    ensures SameLeaks(vm, AllocAndMap(vm, env, pdx, ptx, perm)) <==> (env.Some? || vm.free == [])
  {
    if vm.free != [] {
      TakeKeepsInv(vm);
      var f, taken := vm.free[0], Take(vm);
      assert !LeakedAt(vm, f);
      if env.Some? {
        var s := Page(env.value, pdx, ptx);
        if WalkFails(taken, s) {
          GiveInvIff(taken, f);
        } else {
          InsertIsUpdate(taken, s, f, perm);
        }
      } else {
        assert LeakedAt(taken, f);
      }
    }
  }

  lemma PageMapKeepsInv(vm: Vm, src: Site, dst: Site, perm: Flags)
    requires Inv(vm)
    requires src.Page? && dst.Page? && Dir(dst.env) in vm.names
    requires MapAllowed(vm, src, perm)
    ensures vm.names[src] < |vm.refs|
    ensures Inv(Insert(vm, dst, vm.names[src], perm)) <==> WalkFails(vm, dst) || CountFits(vm, src, dst)
    ensures WalkFails(vm, dst) || CountFits(vm, src, dst) ==> SameLeaks(vm, Insert(vm, dst, vm.names[src], perm))
  {
    var f := vm.names[src];
    PageFrameIsUser(vm, src);
    if WalkFails(vm, dst) {
    } else {
      InsertIsUpdate(vm, dst, f, perm);
      assert !LeakedAt(vm, f);
    }
  }

  /** Each operation keeps the counts, the privacy of the tables and the free
      list exactly when no 16-bit count wraps; then it loses a frame exactly when it is a sys_page_alloc with a bad
      environment id and memory is not exhausted. */
  lemma StepKeepsInv(vm: Vm, op: Op, vm': Vm)
    requires Inv(vm) && Legal(vm, op) && Next(vm, op, vm')
    ensures Inv(vm') <==> Fits(vm, op)
    ensures Fits(vm, op) ==> (SameLeaks(vm, vm') <==> !(op.PageAlloc? && op.env.None? && vm.free != []))
  {
    match op
    case PageAlloc(env, pdx, ptx, perm) =>
      AllocAndMapKeepsInv(vm, env, pdx, ptx, perm);
    case PageMap(src, dst, perm) =>
      if MapAllowed(vm, src, perm) {
        PageMapKeepsInv(vm, src, dst, perm);
      }
    case PageUnmap(at) =>
      if at in vm.names {
        LeafHasNoChild(vm, at);
        DropKeepsInv(vm, at);
      }
    case SetupVm(e) =>
      if vm.free != [] {
        NewTableKeepsInv(vm, Dir(e));
      }
    case FreeEnv(e) =>
      var order :| Drops(vm, order, vm');
      DropsKeepInv(vm, order, vm');
  }

  /** A run: consecutive states joined by legal operations that fit 16 bits. */
  ghost predicate Run(states: seq<Vm>, ops: seq<Op>) {
    && |states| == |ops| + 1
    && forall i {:trigger ops[i]} :: 0 <= i < |ops| && Inv(states[i]) ==>
         Legal(states[i], ops[i]) && Fits(states[i], ops[i]) && Next(states[i], ops[i], states[i + 1])
  }

  /** In every reachable state the reference counts are exact, tables are
      private and the free list is sound; and no frame is ever lost unless
      some sys_page_alloc was given a bad environment id. */
  lemma {:induction false} ReachableInv(states: seq<Vm>, ops: seq<Op>, n: nat)
    requires Run(states, ops) && Inv(states[0]) && n < |states|
    ensures Inv(states[n])
    ensures (forall i :: 0 <= i < n && ops[i].PageAlloc? ==> ops[i].env.Some?) ==> SameLeaks(states[0], states[n])
  {
    if n > 0 {
      ReachableInv(states, ops, n - 1);
      StepKeepsInv(states[n - 1], ops[n - 1], states[n]);
      if forall i :: 0 <= i < n && ops[i].PageAlloc? ==> ops[i].env.Some? {
        forall f: nat ensures LeakedAt(states[0], f) <==> LeakedAt(states[n], f) {
          assert LeakedAt(states[0], f) <==> LeakedAt(states[n - 1], f);
        }
      }
    }
  }

  // ----- who may write -----

  /** Some environment has frame f mapped writable. */
  ghost predicate Writable(vm: Vm, f: nat) {
    exists s :: s in Flat(vm) && Flat(vm)[s].frame == f && Flat(vm)[s].flags.w
  }

  /** No operation makes a frame writable that nobody could write before, unless it was free:
      sys_page_map hands on no more access than its source has. */
  lemma StepGrantsNoWrite(vm: Vm, op: Op, vm': Vm, f: nat)
    requires Inv(vm) && Legal(vm, op) && Fits(vm, op) && Next(vm, op, vm') && Writable(vm', f)
    ensures Writable(vm, f) || f in vm.free
  {
    var s :| s in Flat(vm') && Flat(vm')[s].frame == f && Flat(vm')[s].flags.w;
    match op
    case PageAlloc(env, pdx, ptx, perm) =>
      AllocFlat(vm, env, pdx, ptx, perm);
      if s in Flat(vm) && Flat(vm')[s] == Flat(vm)[s] {
        assert Writable(vm, f);
      }
    case PageMap(src, dst, perm) =>
      if MapAllowed(vm, src, perm) && !WalkFails(vm, dst) {
        PageFrameIsUser(vm, src);
        InsertIsUpdate(vm, dst, vm.names[src], perm);
        assert s == dst ==> src in Flat(vm) && Flat(vm)[src].flags.w && Flat(vm)[src].frame == f;
      }
      assert s != dst ==> s in Flat(vm) && Flat(vm)[s] == Flat(vm')[s];
    case PageUnmap(at) => assert s in Flat(vm) && Flat(vm)[s] == Flat(vm')[s];
    case SetupVm(e) => assert s in Flat(vm) && Flat(vm)[s] == Flat(vm')[s];
    case FreeEnv(e) =>
      var order :| Drops(vm, order, vm');
      DropsFlat(vm, order, vm', s);
  }

  /** Clearing sites leaves of the flat map what it leaves as it was. */
  lemma {:induction false} DropsFlat(vm: Vm, order: seq<Site>, vm': Vm, s: Site)
    requires Drops(vm, order, vm') && s in Flat(vm')
    ensures s in Flat(vm) && Flat(vm)[s] == Flat(vm')[s]
    decreases |order|
  {
    if order != [] {
      DropsFlat(Drop(vm, order[0]), order[1..], vm', s);
    }
  }

  lemma AllocFlat(vm: Vm, env: Option<nat>, pdx: nat, ptx: nat, perm: Flags)
    requires Inv(vm) && (env.Some? ==> Dir(env.value) in vm.names)
    ensures var vm' := AllocAndMap(vm, env, pdx, ptx, perm);
      forall s :: s in Flat(vm') ==> (s in Flat(vm) && Flat(vm')[s] == Flat(vm)[s]) || Flat(vm')[s].frame in vm.free
  {
    if vm.free != [] && env.Some? {
      TakeKeepsInv(vm);
      var f, taken := vm.free[0], Take(vm);
      var s := Page(env.value, pdx, ptx);
      if !WalkFails(taken, s) {
        InsertIsUpdate(taken, s, f, perm);
        assert Flat(taken) == Flat(vm);
      }
    }
  }

  /** A frame that nobody can write stays so over every run that does not free it. */
  lemma {:induction false} ReadOnlyStays(states: seq<Vm>, ops: seq<Op>, f: nat, n: nat)
    requires Run(states, ops) && Inv(states[0]) && n < |states| && !Writable(states[0], f)
    requires forall i :: 0 <= i < n ==> f !in states[i].free
    ensures !Writable(states[n], f)
  {
    if n > 0 {
      ReadOnlyStays(states, ops, f, n - 1);
      ReachableInv(states, ops, n - 1);
      if Writable(states[n], f) {
        StepGrantsNoWrite(states[n - 1], ops[n - 1], states[n], f);
      }
    }
  }
}
