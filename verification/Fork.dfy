/** lib/fork.c as code: pgfault, duppage and fork, built from system calls. */
module Fork {
  import opened Options
  import opened Vm
  import opened PageTables
  import opened VmRuns
  import opened Pmap
  import opened PageSyscalls
  import opened Cow

  /** The contents of every mapped page are as before. */
  ghost predicate Kept(flat: map<Site, Mapping>, mem: Memory, mem': Memory) {
    |mem'| == |mem| && forall s :: s in flat && flat[s].frame < |mem| ==> mem'[flat[s].frame] == mem[flat[s].frame]
  }

  lemma SameDataKept(vm: Vm, mem: Memory, mem': Memory)
    requires Inv(vm) && SameData(vm, mem, mem')
    ensures Kept(Flat(vm), mem, mem')
  {
    forall s | s in Flat(vm) ensures UserFrame(vm, Flat(vm)[s].frame) {
      PageFrameIsUser(vm, s);
    }
  }

  /** The mappings that mapping frame f at s leaves alone: all, unless another frame was there. */
  ghost function Spared(flat: map<Site, Mapping>, s: Site, f: nat): map<Site, Mapping> {
    if s in flat && flat[s].frame != f then flat - {s} else flat
  }

  /** sys_page_map between two environments at one address, as duppage uses it. */
  method MapAcross(k: PhysMem, e: nat, c: nat, i: nat, j: nat, perm: Flags) returns (r: int)
    requires k.Valid() && Dir(e) in k.vm.names && Dir(c) in k.vm.names
    requires i < k.lay.userDirs && j < k.lay.entries && Page(e, i, j) in Flat(k.vm)
    requires CountFits(k.vm, Page(e, i, j), Page(c, i, j))
    requires perm.p && (perm.w ==> Flat(k.vm)[Page(e, i, j)].flags.w)
    modifies k`mem, k`refs, k`link, k`freeHead, k`vm
    ensures k.Valid() && SameDirs(old(k.vm), k.vm)
    ensures r == 0 <==> !WalkFails(old(k.vm), Page(c, i, j))
    ensures r != 0 ==> k.vm == old(k.vm) && k.mem == old(k.mem)
    ensures Kept(Flat(old(k.vm)), old(k.mem), k.mem)
    ensures r == 0 ==> Flat(k.vm) == Flat(old(k.vm))[Page(c, i, j) := Mapping(Flat(old(k.vm))[Page(e, i, j)].frame, perm.(p := true))]
    ensures r != 0 ==> r < 0
  {
    r := SysPageMap(k, Some(e), i, j, Some(c), i, j, perm);
    SameDataKept(old(k.vm), old(k.mem), k.mem);
  }

  /** duppage's middle branch: both environments end up copy-on-write. */
  method ShareCow(k: PhysMem, e: nat, c: nat, i: nat, j: nat) returns (r: int)
    requires k.Valid() && e != c && Dir(e) in k.vm.names && Dir(c) in k.vm.names
    requires i < k.lay.userDirs && j < k.lay.entries && Page(e, i, j) in Flat(k.vm)
    requires CountFits(k.vm, Page(e, i, j), Page(c, i, j))
    modifies k`mem, k`refs, k`link, k`freeHead, k`vm
    ensures k.Valid() && SameDirs(old(k.vm), k.vm)
    ensures r == 0 <==> !WalkFails(old(k.vm), Page(c, i, j))
    ensures r != 0 ==> k.vm == old(k.vm) && k.mem == old(k.mem)
    ensures r == 0 ==> var flat, f := Flat(old(k.vm)), Flat(old(k.vm))[Page(e, i, j)].frame;
      && Flat(k.vm) == flat[Page(c, i, j) := Mapping(f, PUCOW)][Page(e, i, j) := Mapping(f, PUCOW)]
      && Kept(Spared(flat, Page(c, i, j), f), old(k.mem), k.mem)
  {
    ghost var flat := Flat(k.vm);
    ghost var f := flat[Page(e, i, j)].frame;
    r := MapAcross(k, e, c, i, j, PUCOW);
    if r < 0 {
      return;
    }
    ghost var mem1 := k.mem;
    SameFrameFits(k.vm, Page(c, i, j), Page(e, i, j));
    r := MapAcross(k, c, e, i, j, PUCOW);
    KeptNewSite(flat, Page(c, i, j), f, old(k.mem), mem1, k.mem);
  }

  /** Mapping a frame where it is mapped already changes no count, and needs no new table. */
  lemma SameFrameFits(vm: Vm, a: Site, b: Site)
    requires Inv(vm) && a in Flat(vm) && b in Flat(vm) && Flat(vm)[a].frame == Flat(vm)[b].frame
    ensures CountFits(vm, a, b) && b.Page? && !WalkFails(vm, b)
  {
  }

  lemma KeptNewSite(flat: map<Site, Mapping>, b: Site, n: nat, mem0: Memory, mem1: Memory, mem2: Memory)
    requires Kept(flat, mem0, mem1) && Kept(flat[b := Mapping(n, PUCOW)], mem1, mem2)
    ensures Kept(Spared(flat, b, n), mem0, mem2)
  {
    var flat1, flat2 := flat[b := Mapping(n, PUCOW)], Spared(flat, b, n);
    forall s | s in flat2 && flat2[s].frame < |mem0| ensures mem2[flat2[s].frame] == mem0[flat2[s].frame] {
      assert s in flat1 && flat1[s].frame == flat[s].frame;
    }
  }

  lemma DupPageOneWrite(page: map<Site, Mapping>, src: Site, dst: Site)
    requires src in page && src != dst
    requires page[src].flags.share || !(page[src].flags.w || page[src].flags.cow)
    ensures DupPage(page, src, dst) == page[dst := Mapping(page[src].frame, ChildFlags(page[src].flags))]
  {
  }

  /** duppage(envid = c, pn): false is the source's panic. */
  method Duppage(k: PhysMem, e: nat, c: nat, i: nat, j: nat) returns (ok: bool)
    requires k.Valid() && e != c && Dir(e) in k.vm.names && Dir(c) in k.vm.names
    requires i < k.lay.userDirs && j < k.lay.entries && Page(e, i, j) in Flat(k.vm)
    requires CountFits(k.vm, Page(e, i, j), Page(c, i, j))
    modifies k`mem, k`refs, k`link, k`freeHead, k`vm
    ensures k.Valid() && SameDirs(old(k.vm), k.vm)
    ensures ok <==> !WalkFails(old(k.vm), Page(c, i, j))
    ensures !ok ==> k.vm == old(k.vm) && k.mem == old(k.mem)
    ensures ok ==> var flat := Flat(old(k.vm));
      && Flat(k.vm) == DupPage(flat, Page(e, i, j), Page(c, i, j))
      && Kept(Spared(flat, Page(c, i, j), flat[Page(e, i, j)].frame), old(k.mem), k.mem)
  {
    var pte := k.PageLookup(e, i, j);
    var r;
    if pte.flags.share {
      DupPageOneWrite(Flat(k.vm), Page(e, i, j), Page(c, i, j));
      r := MapAcross(k, e, c, i, j, pte.flags.(hw := 0));
    } else if pte.flags.w || pte.flags.cow {
      r := ShareCow(k, e, c, i, j);
    } else {
      DupPageOneWrite(Flat(k.vm), Page(e, i, j), Page(c, i, j));
      r := MapAcross(k, e, c, i, j, PU);
    }
    return r == 0;
  }

  // ----- pgfault -----

  /** memmove of page (i, j), in frame f, onto the writable page (di, dj), in frame n, through
      the user's own mappings. A source without PTE_U faults inside the handler, which panics. */
  method CopyPage(k: PhysMem, e: nat, i: nat, j: nat, di: nat, dj: nat, ghost f: nat, ghost n: nat) returns (ok: bool)
    requires k.Valid() && Dir(e) in k.vm.names && i < k.lay.userDirs && j < k.lay.entries
    requires di < k.lay.userDirs && dj < k.lay.entries
    requires Page(e, i, j) in Flat(k.vm) && Flat(k.vm)[Page(e, i, j)].frame == f
    requires Page(e, di, dj) in Flat(k.vm) && Flat(k.vm)[Page(e, di, dj)] == Mapping(n, PUW)
    modifies k`mem
    ensures k.Valid()
    ensures f < |old(k.mem)| && n < |old(k.mem)|
    ensures UserMay.requires(k.lay, old(k.mem), k.vm.names[Dir(e)], i, j, false)
    ensures ok <==> UserMay(k.lay, old(k.mem), k.vm.names[Dir(e)], i, j, false)
    ensures ok <==> Flat(k.vm)[Page(e, i, j)].flags.u
    ensures k.mem == if ok then old(k.mem)[n := old(k.mem)[f]] else old(k.mem)
  {
    var src := k.PageLookup(e, i, j);
    var dst := k.PageLookup(e, di, dj);
    PageFrameIsUser(k.vm, Page(e, di, dj));
    PageFrameIsUser(k.vm, Page(e, i, j));
    UserMayIsFlat(k.lay, k.mem, k.vm, Page(e, i, j), false);
    if !UserMay(k.lay, k.mem, k.pgdir[e], i, j, false) {
      return false;
    }
    StoreData(k.lay, k.mem, k.vm, dst.frame, k.mem[src.frame]);
    k.mem := k.mem[dst.frame := k.mem[src.frame]];
    return true;
  }

  /** pgfault's first half: a new page at PFTEMP = (pi, pj), holding a copy of the faulting page. */
  method CopyToTemp(k: PhysMem, e: nat, i: nat, j: nat, pi: nat, pj: nat) returns (ok: bool)
    requires k.Valid() && Dir(e) in k.vm.names && i < k.lay.userDirs && j < k.lay.entries
    requires pi < k.lay.userDirs && pj < k.lay.entries && (pi, pj) != (i, j)
    requires Page(e, i, j) in Flat(k.vm)
    modifies k`mem, k`refs, k`link, k`freeHead, k`vm
    ensures k.Valid() && SameDirs(old(k.vm), k.vm)
    ensures ok <==> Flat(old(k.vm))[Page(e, i, j)].flags.u && Room(old(k.vm), Page(e, pi, pj))
    ensures Kept(Flat(old(k.vm)), old(k.mem), k.mem)
    ensures !Room(old(k.vm), Page(e, pi, pj)) ==> k.vm == old(k.vm)
    ensures ok ==> var flat, n := Flat(old(k.vm)), old(k.vm.free)[0];
      && Flat(k.vm) == flat[Page(e, pi, pj) := Mapping(n, PUW)]
      && n < |k.mem| && k.refs[n] == 1 && !Named(old(k.vm), n)
      && flat[Page(e, i, j)].frame < |k.mem| && k.mem[n] == old(k.mem)[flat[Page(e, i, j)].frame]
  {
    // a positive E_NO_MEM panics in the system call stub, a negative one here
    var r := AllocSelf(k, e, pi, pj);
    if r != 0 {
      return false;
    }
    ghost var mem1, flat0, n := k.mem, Flat(old(k.vm)), old(k.vm.free)[0];
    ghost var f := flat0[Page(e, i, j)].frame;
    ok := CopyPage(k, e, i, j, pi, pj, f, n);
    if ok {
      TempHoldsCopy(flat0, Page(e, i, j), n, old(k.mem), mem1);
    }
  }

  lemma TempHoldsCopy(flat: map<Site, Mapping>, s: Site, n: nat, mem0: Memory, mem1: Memory)
    requires s in flat && n < |mem1| && flat[s].frame < |mem1| && Kept(flat, mem0, mem1)
    requires forall x :: x in flat ==> flat[x].frame != n
    ensures Kept(flat, mem0, mem1[n := mem1[flat[s].frame]])
    ensures flat[s].frame < |mem0| && mem1[flat[s].frame] == mem0[flat[s].frame]
  {
    KeptOverwrite(flat, mem0, mem1, n, mem1[flat[s].frame]);
  }

  lemma KeptOverwrite(flat: map<Site, Mapping>, mem0: Memory, mem1: Memory, n: nat, row: Row)
    requires Kept(flat, mem0, mem1) && n < |mem1|
    requires forall s :: s in flat ==> flat[s].frame != n
    ensures Kept(flat, mem0, mem1[n := row])
  {
  }

  /** The page is a cleared frame that nothing else maps. */
  ghost predicate OwnCleared(lay: Layout, vm: Vm, mem: Memory, s: Site) {
    match lay
    case Layout(entries, _) =>
      && s in Flat(vm) && Flat(vm)[s].flags == PUW
      && var f := Flat(vm)[s].frame;
      && f < |mem| && f < |vm.refs| && vm.refs[f] == 1 && mem[f] == seq(entries, x => ZERO)
  }

  /** sys_page_alloc(env, va, PTE_P|PTE_U|PTE_W), as pgfault and fork see it. */
  method AllocSelf(k: PhysMem, e: nat, i: nat, j: nat) returns (r: int)
    requires k.Valid() && Dir(e) in k.vm.names && i < k.lay.userDirs && j < k.lay.entries
    modifies k`mem, k`refs, k`link, k`freeHead, k`vm
    ensures k.Valid() && SameDirs(old(k.vm), k.vm) && Kept(Flat(old(k.vm)), old(k.mem), k.mem)
    ensures r == 0 <==> Room(old(k.vm), Page(e, i, j))
    ensures r == 0 ==> var n := old(k.vm.free)[0];
      && Flat(k.vm) == Flat(old(k.vm))[Page(e, i, j) := Mapping(n, PUW)]
      && n < |k.mem| && k.refs[n] == 1 && !Named(old(k.vm), n)
      && forall s :: s in Flat(old(k.vm)) ==> Flat(old(k.vm))[s].frame != n
    ensures r == 0 ==> OwnCleared(k.lay, k.vm, k.mem, Page(e, i, j))
    ensures r != 0 ==> k.vm == old(k.vm) && |k.vm.free| <= 1
  {
    r := SysPageAlloc(k, Some(e), i, j, PUW);
    SameDataKept(old(k.vm), old(k.mem), k.mem);
    if r == 0 {
      FreshApart(old(k.vm), old(k.vm.free)[0]);
    } else {
      NoRoomSame(old(k.vm), e, i, j, PUW, k.vm);
    }
  }

  lemma FreshApart(vm: Vm, f: nat)
    requires !Named(vm, f)
    ensures forall s :: s in Flat(vm) ==> Flat(vm)[s].frame != f
  {
  }

  /** sys_page_map(0, from, 0, to, PTE_P|PTE_U|PTE_W) and sys_page_unmap(0, va), as pgfault sees them. */
  method MapSelf(k: PhysMem, e: nat, si: nat, sj: nat, di: nat, dj: nat) returns (r: int)
    requires k.Valid() && Dir(e) in k.vm.names && si < k.lay.userDirs && sj < k.lay.entries
    requires di < k.lay.userDirs && dj < k.lay.entries
    requires Page(e, si, sj) in Flat(k.vm) && NoWrap(k.vm, Flat(k.vm)[Page(e, si, sj)].frame)
    requires Flat(k.vm)[Page(e, si, sj)].flags.w && Page(e, di, dj) in Flat(k.vm)
    modifies k`mem, k`refs, k`link, k`freeHead, k`vm
    ensures k.Valid() && SameDirs(old(k.vm), k.vm) && Kept(Flat(old(k.vm)), old(k.mem), k.mem)
    ensures r == 0 && Flat(k.vm) == Flat(old(k.vm))[Page(e, di, dj) := Mapping(Flat(old(k.vm))[Page(e, si, sj)].frame, PUW)]
  {
    r := SysPageMap(k, Some(e), si, sj, Some(e), di, dj, PUW);
    SameDataKept(old(k.vm), old(k.mem), k.mem);
  }

  method UnmapSelf(k: PhysMem, e: nat, i: nat, j: nat) returns (r: int)
    requires k.Valid() && Dir(e) in k.vm.names && i < k.lay.userDirs && j < k.lay.entries
    modifies k`mem, k`refs, k`link, k`freeHead, k`vm
    ensures k.Valid() && r == 0 && Flat(k.vm) == Flat(old(k.vm)) - {Page(e, i, j)}
    ensures Kept(Flat(old(k.vm)), old(k.mem), k.mem)
  {
    r := SysPageUnmap(k, Some(e), i, j);
    SameDataKept(old(k.vm), old(k.mem), k.mem);
  }

  /** pgfault's second half: PFTEMP's page moves to the faulting address. */
  method MoveFromTemp(k: PhysMem, e: nat, i: nat, j: nat, pi: nat, pj: nat) returns (ok: bool)
    requires k.Valid() && Dir(e) in k.vm.names && i < k.lay.userDirs && j < k.lay.entries
    requires pi < k.lay.userDirs && pj < k.lay.entries && (pi, pj) != (i, j)
    requires Page(e, pi, pj) in Flat(k.vm) && NoWrap(k.vm, Flat(k.vm)[Page(e, pi, pj)].frame)
    requires Flat(k.vm)[Page(e, pi, pj)].flags.w && Page(e, i, j) in Flat(k.vm)
    modifies k`mem, k`refs, k`link, k`freeHead, k`vm
    ensures k.Valid() && ok
    ensures Flat(k.vm) == Flat(old(k.vm))[Page(e, i, j) := Mapping(Flat(old(k.vm))[Page(e, pi, pj)].frame, PUW)] - {Page(e, pi, pj)}
    ensures Kept(Flat(old(k.vm)) - {Page(e, i, j)}, old(k.mem), k.mem)
  {
    var r := MapSelf(k, e, pi, pj, i, j);
    if r < 0 {
      return false;
    }
    ghost var mem1 := k.mem;
    r := UnmapSelf(k, e, pi, pj);
    KeptAfterMap(Flat(old(k.vm)), Page(e, i, j), Flat(old(k.vm))[Page(e, pi, pj)].frame, old(k.mem), mem1, k.mem);
    return r == 0;
  }

  lemma KeptAfterMap(flat: map<Site, Mapping>, a: Site, n: nat, mem0: Memory, mem1: Memory, mem2: Memory)
    requires Kept(flat, mem0, mem1) && Kept(flat[a := Mapping(n, PUW)], mem1, mem2)
    ensures Kept(flat - {a}, mem0, mem2)
  {
    forall s | s in flat - {a} && flat[s].frame < |mem0| ensures mem2[flat[s].frame] == mem0[flat[s].frame] {
      assert s in flat[a := Mapping(n, PUW)] && flat[a := Mapping(n, PUW)][s] == flat[s];
    }
  }

  /** pgfault(write fault at (i, j)): false is the source's panic. On success
      the faulting page is a private, writable copy in a frame nobody named
      before, PFTEMP is unmapped, whatever it held, and every other page is untouched. */
  method Pgfault(k: PhysMem, e: nat, i: nat, j: nat, pi: nat, pj: nat, write: bool) returns (ok: bool)
    requires k.Valid() && Dir(e) in k.vm.names && i < k.lay.userDirs && j < k.lay.entries
    requires pi < k.lay.userDirs && pj < k.lay.entries && (pi, pj) != (i, j)
    modifies k`mem, k`refs, k`link, k`freeHead, k`vm
    ensures k.Valid()
    ensures ok <==>
      && write && Page(e, i, j) in Flat(old(k.vm)) && Flat(old(k.vm))[Page(e, i, j)].flags.cow
      && Flat(old(k.vm))[Page(e, i, j)].flags.u && Room(old(k.vm), Page(e, pi, pj))
    ensures ok ==> var n, f := old(k.vm.free)[0], Flat(old(k.vm))[Page(e, i, j)].frame;
      && !Named(old(k.vm), n) && n < |k.mem| && f < |k.mem|
      && Flat(k.vm) == (Flat(old(k.vm)) - {Page(e, pi, pj)})[Page(e, i, j) := Mapping(n, PUW)]
      && k.mem[n] == old(k.mem)[f]
    ensures ok ==> Kept(Flat(old(k.vm)) - {Page(e, i, j), Page(e, pi, pj)}, old(k.mem), k.mem)
    ensures !Room(old(k.vm), Page(e, pi, pj)) ==> k.vm == old(k.vm) && Kept(Flat(old(k.vm)), old(k.mem), k.mem)
  {
    var pte := k.PageLookup(e, i, j);
    if !write || pte == Fault || !pte.flags.cow {
      return false;
    }
    ok := CopyToTemp(k, e, i, j, pi, pj);
    if !ok {
      return;
    }
    ghost var mem1 := k.mem;
    ok := MoveFromTemp(k, e, i, j, pi, pj);
    if ok {
      KeptTwice(Flat(old(k.vm)), Page(e, i, j), Page(e, pi, pj), old(k.vm.free)[0], old(k.mem), mem1, k.mem);
    }
  }

  lemma KeptTwice(flat: map<Site, Mapping>, a: Site, t: Site, n: nat, mem0: Memory, mem1: Memory, mem2: Memory)
    requires Kept(flat, mem0, mem1) && Kept(flat[t := Mapping(n, PUW)] - {a}, mem1, mem2) && t != a
    ensures Kept(flat - {a, t}, mem0, mem2)
    ensures n < |mem1| ==> mem2[n] == mem1[n]
    ensures flat[t := Mapping(n, PUW)][a := Mapping(n, PUW)] - {t} == (flat - {t})[a := Mapping(n, PUW)]
  {
    var flat1 := flat[t := Mapping(n, PUW)] - {a};
    assert t in flat1 && flat1[t].frame == n;
    forall s | s in flat - {a, t} && flat[s].frame < |mem0| ensures mem2[flat[s].frame] == mem0[flat[s].frame] {
      assert s in flat1 && flat1[s] == flat[s];
    }
  }
}
