/** The page system calls of kern/syscall.c, and the user's own loads and
    stores through the tables they build. */
module PageSyscalls {
  import opened Errors
  import opened Options
  import opened Vm
  import opened PageTables
  import opened VmRuns
  import opened FreeList
  import opened Pmap

  /** The permission test as written: it only rejects a perm with neither PTE_U
      nor PTE_P and no bit outside PTE_SYSCALL. */
  predicate PermRejected(perm: Flags) {
    !perm.u && !perm.p && perm.hw == 0
  }

  /** The permission word that the caller passes, taken apart. */
  function FlagsOf(word: bv12): Flags {
    Flags(word & 0x001 != 0, word & 0x002 != 0, word & 0x004 != 0, word & 0x200 != 0, word & 0x400 != 0, word & 0x800 != 0,
          (word & 0x1F8) as nat)
  }

  /** The test on the word itself: PTE_U and PTE_P clear, and no bit outside PTE_SYSCALL set. */
  lemma PermRejectedIff(word: bv12)
    ensures PermRejected(FlagsOf(word)) <==> word & 0x004 == 0 && word & 0x001 == 0 && word & !0xE07 == 0
  {
    assert word & !0xE07 == word & 0x1F8;
  }

  /** Enough free frames for a page at s: one, and one more if its table is missing. */
  predicate Room(vm: Vm, s: Site)
    requires s.Page?
  {
    |vm.free| >= if TableOf(s) in vm.names then 1 else 2
  }

  /** sys_page_map's checks: both addresses below UTOP, the source mapped, and
      writable if the new mapping is to be. */
  predicate Mappable(lay: Layout, vm: Vm, s: Site, d: Site, perm: Flags)
    requires s.Page? && d.Page?
  {
    s.pdx < lay.userDirs && d.pdx < lay.userDirs && MapAllowed(vm, s, perm) && !PermRejected(perm)
  }

  /** A frame nobody names becomes a page: the flat map gains exactly that page. */
  lemma InsertFresh(vm: Vm, s: Site, f: nat, perm: Flags)
    requires Inv(vm) && s.Page? && Dir(s.env) in vm.names && LeakedAt(vm, f) && vm.refs[f] == 0
    ensures UserFrame(vm, f) && NoWrap(vm, f)
    ensures !WalkFails(vm, s) ==> Flat(Insert(vm, s, f, perm)) == Flat(vm)[s := Mapping(f, perm.(p := true))]
  {
    if !WalkFails(vm, s) {
      InsertIsUpdate(vm, s, f, perm);
    }
  }

  lemma FreshRef(vm: Vm, s: Site, f: nat, perm: Flags)
    requires Inv(vm) && s.Page? && Dir(s.env) in vm.names && LeakedAt(vm, f) && vm.refs[f] == 0
    requires !WalkFails(vm, s)
    ensures var u := Insert(vm, s, f, perm); |u.refs| == |vm.refs| && u.refs[f] == 1
  {
    assert vm.free != [] ==> vm.free[0] in vm.free;
    if TableOf(s) !in vm.names {
      NewTableFlat(vm, TableOf(s), f);
    }
    MapFreshRef(Walk(vm, s), s, f, perm);
  }

  lemma MapFreshRef(vm: Vm, s: Site, f: nat, perm: Flags)
    requires s.Page? && f < |vm.refs| && vm.refs[f] == 0
    requires s in vm.names ==> vm.names[s] < |vm.refs| && vm.names[s] != f
    ensures var u := Map(vm, s, f, perm); |u.refs| == |vm.refs| && u.refs[f] == 1
  {
  }

  /** sys_page_alloc past its argument checks and its page_alloc. */
  method AllocTail(k: PhysMem, env: Option<nat>, i: nat, j: nat, perm: Flags, f: nat) returns (r: int)
    requires k.Valid() && i < k.lay.userDirs && j < k.lay.entries && (env.Some? ==> Dir(env.value) in k.vm.names)
    requires LeakedAt(k.vm, f) && k.refs[f] == 0
    modifies k`mem, k`refs, k`link, k`freeHead, k`vm
    ensures k.Valid() && SameData(old(k.vm), old(k.mem), k.mem)
    ensures r == if env.None? then -E_BAD_ENV else if WalkFails(old(k.vm), Page(env.value, i, j)) then -E_NO_MEM else 0
    ensures k.vm == if env.None? then old(k.vm)
                    else if r < 0 then Give(old(k.vm), f) else Insert(old(k.vm), Page(env.value, i, j), f, perm)
    ensures Flat(k.vm) == if r == 0 then Flat(old(k.vm))[Page(env.value, i, j) := Mapping(f, perm.(p := true))]
                          else Flat(old(k.vm))
    ensures r == 0 ==> k.refs[f] == 1
    ensures SameDirs(old(k.vm), k.vm)
  {
    if env.None? {
      return -E_BAD_ENV;
    }
    InsertFresh(k.vm, Page(env.value, i, j), f, perm);
    InsertKeepsUsers(k.vm, Page(env.value, i, j), f, perm);
    if !WalkFails(k.vm, Page(env.value, i, j)) {
      FreshRef(k.vm, Page(env.value, i, j), f, perm);
    }
    r := k.PageInsert(env.value, i, j, f, perm);
    if r < 0 {
      GiveInvIff(k.vm, f);
      var ok := k.PageFree(f);
    }
  }

  /** sys_page_alloc. E_INVAL and E_NO_MEM are returned without a minus sign. */
  method SysPageAlloc(k: PhysMem, env: Option<nat>, i: nat, j: nat, perm: Flags) returns (r: int)
    requires k.Valid() && j < k.lay.entries && (env.Some? ==> Dir(env.value) in k.vm.names)
    modifies k`mem, k`refs, k`link, k`freeHead, k`vm
    ensures k.Valid() && SameData(old(k.vm), old(k.mem), k.mem)
    ensures i >= k.lay.userDirs || PermRejected(perm) ==> r == E_INVAL && k.vm == old(k.vm)
    ensures i < k.lay.userDirs && !PermRejected(perm) ==> Next(old(k.vm), PageAlloc(env, i, j, perm), k.vm)
    ensures r == 0 <==> i < k.lay.userDirs && !PermRejected(perm) && env.Some? && Room(old(k.vm), Page(env.value, i, j))
    ensures r == if i >= k.lay.userDirs || PermRejected(perm) then E_INVAL else if old(k.vm.free) == [] then E_NO_MEM
                 else if env.None? then -E_BAD_ENV else if !Room(old(k.vm), Page(env.value, i, j)) then -E_NO_MEM else 0
    ensures r == 0 ==> var f := old(k.vm.free)[0];
                       && f < |k.mem| && !Named(old(k.vm), f)
                       && Flat(k.vm) == Flat(old(k.vm))[Page(env.value, i, j) := Mapping(f, perm.(p := true))]
                       && k.mem[f] == seq(k.lay.entries, x => ZERO) && k.refs == k.vm.refs && k.vm.refs[f] == 1
    ensures r != 0 ==> Flat(k.vm) == Flat(old(k.vm))
    ensures SameDirs(old(k.vm), k.vm)
  {
    if i >= k.lay.userDirs || PermRejected(perm) {
      return E_INVAL;
    }
    if k.vm.free != [] {
      TakeKeepsInv(k.vm);
    }
    var f := k.PageAlloc(true);
    if f == NULL {
      return E_NO_MEM;
    }
    TakeKeepsUser(old(k.vm));
    r := AllocTail(k, env, i, j, perm, f);
  }

  /** An allocation that fails for want of frames, of which there is at most one, gives back what it took. */
  lemma NoRoomSame(vm: Vm, e: nat, i: nat, j: nat, perm: Flags, vm': Vm)
    requires Inv(vm) && Next(vm, PageAlloc(Some(e), i, j, perm), vm') && !Room(vm, Page(e, i, j))
    ensures vm' == vm && |vm.free| <= 1
  {
    if vm.free != [] {
      TakeKeepsInv(vm);
      var f := vm.free[0];
      assert vm.refs[f] == 0 && vm.refs[f := 0] == vm.refs;
      assert [f] + vm.free[1..] == vm.free;
    }
  }

  lemma TakeKeepsUser(vm: Vm)
    requires vm.free != [] && vm.free[0] < |vm.refs|
    ensures Flat(Take(vm)) == Flat(vm)
    ensures forall f: nat :: UserFrame(vm, f) ==> UserFrame(Take(vm), f) && f != vm.free[0]
    ensures !Named(vm, vm.free[0]) && Managed(vm, vm.free[0]) && vm.free[0] !in vm.free[1..] ==> UserFrame(Take(vm), vm.free[0])
  {
    assert vm.free[0] in vm.free;
  }

  /** sys_page_map. Only the PTE_W test looks at the source's own flags. */
  method SysPageMap(k: PhysMem, src: Option<nat>, si: nat, sj: nat, dst: Option<nat>, di: nat, dj: nat, perm: Flags)
    returns (r: int)
    requires k.Valid() && sj < k.lay.entries && dj < k.lay.entries
    requires (src.Some? ==> Dir(src.value) in k.vm.names) && (dst.Some? ==> Dir(dst.value) in k.vm.names)
    modifies k`mem, k`refs, k`link, k`freeHead, k`vm
    ensures k.Linked() && SameData(old(k.vm), old(k.mem), k.mem)
    ensures r == if src.None? || dst.None? then -E_BAD_ENV
                 else if !Mappable(k.lay, old(k.vm), Page(src.value, si, sj), Page(dst.value, di, dj), perm) then -E_INVAL
                 else if WalkFails(old(k.vm), Page(dst.value, di, dj)) then -E_NO_MEM else 0
    ensures r == 0 ==> var s, d := Page(src.value, si, sj), Page(dst.value, di, dj);
                       && Next(old(k.vm), PageMap(s, d, perm), k.vm)
                       && Flat(k.vm) == Flat(old(k.vm))[d := Mapping(old(k.vm.names)[s], perm.(p := true))]
    ensures r == 0 && NoWrap(old(k.vm), old(k.vm.names)[Page(src.value, si, sj)]) ==> k.Valid()
    ensures (r == 0 && Page(dst.value, di, dj) in old(k.vm.names)
             && old(k.vm.names)[Page(dst.value, di, dj)] == old(k.vm.names)[Page(src.value, si, sj)]) ==> k.Valid()
    ensures r != 0 ==> k.Valid()
    ensures r != 0 ==> r < 0 && k.vm == old(k.vm) && k.mem == old(k.mem)
    ensures SameDirs(old(k.vm), k.vm)
    ensures (r == 0 && (Page(dst.value, di, dj) in old(k.vm.names) ==>
               old(k.vm.names)[Page(dst.value, di, dj)] == old(k.vm.names)[Page(src.value, si, sj)]))
            ==> KeepsUsers(old(k.vm), k.vm)
  {
    if src.None? || dst.None? {
      return -E_BAD_ENV;
    }
    if si >= k.lay.userDirs || di >= k.lay.userDirs {
      return -E_INVAL;
    }
    var found := k.PageLookup(src.value, si, sj);
    if found == Fault || PermRejected(perm) || (!found.flags.w && perm.w) {
      return -E_INVAL;
    }
    PageFrameIsUser(k.vm, Page(src.value, si, sj));
    assert found.frame == k.vm.names[Page(src.value, si, sj)] && found.flags == k.vm.perm[Page(src.value, si, sj)];
    assert Mappable(k.lay, k.vm, Page(src.value, si, sj), Page(dst.value, di, dj), perm);
    r := MapTail(k, found.frame, dst.value, di, dj, perm);
  }

  /** sys_page_map past its checks. */
  method MapTail(k: PhysMem, f: nat, e: nat, i: nat, j: nat, perm: Flags) returns (r: int)
    requires k.Valid() && Dir(e) in k.vm.names && i < k.lay.userDirs && j < k.lay.entries && UserFrame(k.vm, f)
    modifies k`mem, k`refs, k`link, k`freeHead, k`vm
    ensures k.Linked() && SameData(old(k.vm), old(k.mem), k.mem) && SameDirs(old(k.vm), k.vm)
    ensures r == if WalkFails(old(k.vm), Page(e, i, j)) then -E_NO_MEM else 0
    ensures r != 0 ==> k.Valid() && k.vm == old(k.vm) && k.mem == old(k.mem)
    ensures k.vm == Insert(old(k.vm), Page(e, i, j), f, perm)
    ensures r == 0 ==> Flat(k.vm) == Flat(old(k.vm))[Page(e, i, j) := Mapping(f, perm.(p := true))]
    ensures r == 0 && NoWrap(old(k.vm), f) ==> k.Valid()
    ensures r == 0 && Page(e, i, j) in old(k.vm.names) && old(k.vm.names)[Page(e, i, j)] == f ==> k.Valid()
    ensures r == 0 && (Page(e, i, j) in old(k.vm.names) ==> old(k.vm.names)[Page(e, i, j)] == f) ==> KeepsUsers(old(k.vm), k.vm)
  {
    InsertKeepsUsers(k.vm, Page(e, i, j), f, perm);
    if !WalkFails(k.vm, Page(e, i, j)) {
      InsertIsUpdate(k.vm, Page(e, i, j), f, perm);
    }
    r := k.PageInsert(e, i, j, f, perm);
  }

  /** sys_page_unmap. */
  method SysPageUnmap(k: PhysMem, env: Option<nat>, i: nat, j: nat) returns (r: int)
    requires k.Valid() && j < k.lay.entries && (env.Some? ==> Dir(env.value) in k.vm.names)
    modifies k`mem, k`refs, k`link, k`freeHead, k`vm
    ensures k.Valid() && SameData(old(k.vm), old(k.mem), k.mem)
    ensures r == if env.None? then -E_BAD_ENV else if i >= k.lay.userDirs then -E_INVAL else 0
    ensures r == 0 ==> Next(old(k.vm), PageUnmap(Page(env.value, i, j)), k.vm)
                       && Flat(k.vm) == Flat(old(k.vm)) - {Page(env.value, i, j)}
    ensures r != 0 ==> k.vm == old(k.vm)
    ensures SameDirs(old(k.vm), k.vm)
  {
    if env.None? {
      return -E_BAD_ENV;
    }
    if i >= k.lay.userDirs {
      return -E_INVAL;
    }
    RemoveFlat(k.vm, Page(env.value, i, j));
    k.PageRemove(env.value, i, j);
    return 0;
  }

  lemma RemoveFlat(vm: Vm, s: Site)
    requires Placed(vm) && s.Page?
    ensures s in vm.names ==> vm.names[s] < |vm.refs|
    ensures Flat(Remove(vm, s)) == Flat(vm) - {s}
  {
    var u := Remove(vm, s);
    assert u.names == vm.names - {s} && u.perm == vm.perm - {s};
    forall x: Site ensures x in Flat(u) <==> x in Flat(vm) && x != s {
    }
  }

  /** A user store: it goes through exactly if the hardware lets it, which is exactly if the page is
      mapped, writable and the user's. It cannot reach a page table: the flat map and every
      other frame stay as they were. */
  method UserStore(k: PhysMem, e: nat, i: nat, j: nat, at: nat, w: Word) returns (ok: bool)
    requires k.Valid() && Dir(e) in k.vm.names && i < k.lay.userDirs && j < k.lay.entries && at < k.lay.entries
    modifies k`mem
    ensures k.Valid()
    ensures UserMay.requires(k.lay, old(k.mem), k.vm.names[Dir(e)], i, j, true)
    ensures ok <==> UserMay(k.lay, old(k.mem), k.vm.names[Dir(e)], i, j, true)
    ensures ok <==> Page(e, i, j) in Flat(k.vm) && Flat(k.vm)[Page(e, i, j)].flags.w && Flat(k.vm)[Page(e, i, j)].flags.u
    ensures k.mem == if ok then var f := Flat(k.vm)[Page(e, i, j)].frame; old(k.mem)[f := old(k.mem)[f][at := w]]
                     else old(k.mem)
  {
    UserMayIsFlat(k.lay, k.mem, k.vm, Page(e, i, j), true);
    if !UserMay(k.lay, k.mem, k.pgdir[e], i, j, true) {
      return false;
    }
    var found := k.PageLookup(e, i, j);
    var f := found.frame;
    PageFrameIsUser(k.vm, Page(e, i, j));
    StoreData(k.lay, k.mem, k.vm, f, k.mem[f][at := w]);
    k.mem := k.mem[f := k.mem[f][at := w]];
    return true;
  }
}
