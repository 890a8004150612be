/** kern/pmap.c and the address-space half of kern/env.c, as code that updates
    page_free_list, pages[].pp_ref/pp_link and the page tables in place. */
module Pmap {
  import opened Errors
  import opened FreeList
  import opened Vm
  import opened PageTables
  import opened VmRuns


  /** Contents of frames that are user pages, or allocated and not yet named, are untouched. */
  ghost predicate SameData(vm: Vm, mem: Memory, mem': Memory) {
    |mem'| == |mem| && forall f: nat :: UserFrame(vm, f) && f < |mem| ==> mem'[f] == mem[f]
  }

  /** Only frame t differs. */
  ghost predicate OnlyRow(t: nat, mem: Memory, mem': Memory) {
    |mem'| == |mem| && forall f :: 0 <= f < |mem| && f != t ==> mem'[f] == mem[f]
  }

  lemma SameDataThen(vm: Vm, mem: Memory, mem1: Memory, mem2: Memory, t: nat)
    requires SameData(vm, mem, mem1) && OnlyRow(t, mem1, mem2) && !UserFrame(vm, t)
    ensures SameData(vm, mem, mem2)
  {
  }

  /** The table a walk arrives at holds no user data, old or new. */
  lemma TableNotUser(vm: Vm, s: Site)
    requires Inv(vm) && s.Page? && !WalkFails(vm, s) && (vm.free != [] ==> vm.free[0] < |vm.refs|)
    ensures !UserFrame(vm, Walk(vm, s).names[TableOf(s)])
  {
    assert vm.free != [] ==> vm.free[0] in vm.free;
  }

  class PhysMem {
    const lay: Layout
    /** kern_pgdir, the template for every environment's directory. */
    const kernDir: seq<Word>
    var mem: Memory
    /** pages[].pp_ref, pages[].pp_link and page_free_list. */
    var refs: seq<nat>
    var link: seq<int>
    var freeHead: int
    /** envs[].env_pgdir as a frame number, NULL when there is none. */
    var pgdir: seq<int>
    /** The flat state this memory implements. */
    ghost var vm: Vm

    ghost predicate ListOk()
      reads this
    {
      |link| == |refs| && refs == vm.refs && Chain(freeHead, link, vm.free)
    }

    ghost predicate DirsOk()
      reads this
    {
      forall e: nat ::
        && (Dir(e) in vm.names <==> e < |pgdir| && pgdir[e] >= 0)
        && (Dir(e) in vm.names ==> pgdir[e] == vm.names[Dir(e)])
    }

    ghost predicate KernDirOk()
      reads this
    {
      |kernDir| == lay.entries && lay.userDirs <= lay.entries &&
      forall i :: 0 <= i < lay.userDirs ==> kernDir[i] == ZERO
    }

    ghost predicate Linked()
      reads this
    {
      && ListOk() && DirsOk() && KernDirOk() && |mem| == |refs|
      && Represents(lay, mem, vm.names, vm.perm)
    }

    ghost predicate Valid()
      reads this
    {
      Linked() && Inv(vm)
    }

    /** The allocator as page_init leaves it, and no environment yet. */
    constructor (lay: Layout, kernDir: seq<Word>, mem: Memory, refs: seq<nat>, link: seq<int>, freeHead: int,
                 envs: nat, ghost vm: Vm)
      requires |link| == |refs| == |mem| && refs == vm.refs && Chain(freeHead, link, vm.free)
      requires Inv(vm) && vm.names == map[] && vm.perm == map[]
      requires |kernDir| == lay.entries && lay.userDirs <= lay.entries
      requires forall i :: 0 <= i < lay.userDirs ==> kernDir[i] == ZERO
      requires forall f :: 0 <= f < |mem| ==> |mem[f]| == lay.entries
      ensures Valid() && this.vm == vm && this.mem == mem && this.lay == lay && pgdir == seq(envs, e => NULL)
    {
      this.lay, this.kernDir, this.mem := lay, kernDir, mem;
      this.refs, this.link, this.freeHead := refs, link, freeHead;
      this.pgdir, this.vm := seq(envs, e => NULL), vm;
    }

    /** page_alloc. Any non-zero flag clears the page. */
    method PageAlloc(zero: bool) returns (f: int)
      requires Valid()
      modifies this`mem, this`refs, this`link, this`freeHead, this`vm
      ensures Valid()
      ensures f == NULL <==> old(vm.free) == []
      ensures f == NULL ==> vm == old(vm) && mem == old(mem)
      ensures f != NULL ==> f == old(vm.free[0]) && 0 <= f < |mem| && vm == Take(old(vm))
      ensures f != NULL ==> f < |refs| == |link| && refs[f] == 0 && link[f] == NULL
      ensures f != NULL ==> mem == if zero then old(mem)[f := seq(lay.entries, i => ZERO)] else old(mem)
    {
      if freeHead == NULL {
        return NULL;
      }
      TakeKeepsInv(vm);
      f := freeHead;
      ghost var rest := vm.free[1..];
      ChainFrame(link[f], link, rest, f, NULL);
      freeHead := link[f];
      link := link[f := NULL];
      if zero {
        StoreData(lay, mem, vm, f, seq(lay.entries, i => ZERO));
        mem := mem[f := seq(lay.entries, i => ZERO)];
      }
      refs := refs[f := 0];
      vm := Take(vm);
    }

    /** No list of frames fits the links from page_free_list. */
    ghost predicate ListBroken()
      reads this
    {
      forall s :: !Chain(freeHead, link, s)
    }

    /** page_free: panics on a referenced page; there is no double-free check, so a page that
        is free already bends the list into a circle. */
    method PageFree(f: nat) returns (ok: bool)
      requires ListOk() && f < |refs|
      modifies this`link, this`freeHead, this`vm
      ensures ok <==> refs[f] == 0
      ensures vm == if ok then Give(old(vm), f) else old(vm)
      ensures ListOk() <==> !ok || f !in old(vm.free)
      ensures ok && f in old(vm.free) ==> ListBroken()
    {
      if refs[f] != 0 {
        return false;
      }
      if f in vm.free {
        CycleHasNoList(freeHead, link, vm.free, f, link[f := freeHead]);
      } else {
        ChainFrame(freeHead, link, vm.free, f, freeHead);
      }
      link := link[f := freeHead];
      freeHead := f;
      vm := Give(vm, f);
      assert vm.free[1..] == old(vm.free);
      return true;
    }

    /** page_decref. */
    method PageDecref(f: nat)
      requires ListOk() && f < |refs|
      modifies this`refs, this`link, this`freeHead, this`vm
      ensures |refs| == |old(refs)| && vm == Decref(old(vm), f)
      ensures ListOk() <==> refs[f] != 0 || f !in old(vm.free)
    {
      refs := refs[f := (refs[f] + REF_LIMIT - 1) % REF_LIMIT];
      vm := vm.(refs := refs);
      if refs[f] == 0 {
        var ok := PageFree(f);
      }
    }

    /** The tail of pgdir_walk: a cleared page becomes the table of slot i. */
    method InstallTable(e: nat, i: nat, f: nat)
      requires Valid() && Dir(e) in vm.names && i < lay.userDirs && Table(e, i) !in vm.names
      requires LeakedAt(vm, f) && refs[f] == 0
      requires forall j :: 0 <= j < lay.entries ==> mem[f][j] == ZERO
      modifies this`mem, this`refs, this`vm
      ensures Linked()
      ensures vm == Add(old(vm), Table(e, i), f, NO_FLAGS)
      ensures SameData(old(vm), old(mem), mem)
    {
      var w := Word(f, NO_FLAGS.(p := true, w := true, u := true));
      StoreTable(lay, mem, vm, Table(e, i), w);
      refs := refs[f := (refs[f] + 1) % REF_LIMIT];
      mem := Store(mem, pgdir[e], i, w);
      vm := Add(vm, Table(e, i), f, NO_FLAGS);
    }

    /** pgdir_walk: the frame of the page table covering directory slot i, or NULL. */
    method PgdirWalk(e: nat, i: nat, create: bool) returns (t: int)
      requires Valid() && Dir(e) in vm.names && i < lay.userDirs
      modifies this`mem, this`refs, this`link, this`freeHead, this`vm
      ensures Valid()
      ensures t == NULL <==> Table(e, i) !in old(vm.names) && (!create || old(vm.free) == [])
      ensures t == NULL ==> vm == old(vm) && mem == old(mem)
      ensures t != NULL ==> Table(e, i) in vm.names && t == vm.names[Table(e, i)]
      ensures t != NULL ==> old(vm.free != [] ==> vm.free[0] < |vm.refs|) && vm == Walk(old(vm), Page(e, i, 0))
      ensures SameData(old(vm), old(mem), mem)
    {
      assert Agrees(lay, mem, vm.names, vm.perm, Table(e, i));
      var entry := mem[pgdir[e]][i];
      assert vm.free != [] ==> vm.free[0] in vm.free;
      if entry.flags.p {
        return entry.ppn;
      }
      if !create {
        return NULL;
      }
      t := NewTable(e, i);
    }

    /** The creating branch of pgdir_walk. */
    method NewTable(e: nat, i: nat) returns (t: int)
      requires Valid() && Dir(e) in vm.names && i < lay.userDirs && Table(e, i) !in vm.names
      modifies this`mem, this`refs, this`link, this`freeHead, this`vm
      ensures Valid()
      ensures t == NULL <==> old(vm.free) == []
      ensures t == NULL ==> vm == old(vm) && mem == old(mem)
      ensures t != NULL ==> t == old(vm.free[0]) < |old(vm.refs)| && vm == Add(Take(old(vm)), Table(e, i), t, NO_FLAGS)
      ensures SameData(old(vm), old(mem), mem)
    {
      if vm.free != [] {
        TakeKeepsInv(vm);
        NewTableKeepsInv(vm, Table(e, i));
      }
      t := PageAlloc(true);
      if t == NULL {
        return NULL;
      }
      InstallTable(e, i, t);
    }

    /** page_lookup: the flat map's entry, or Fault. */
    method PageLookup(e: nat, i: nat, j: nat) returns (r: Translation)
      requires Valid() && Dir(e) in vm.names && i < lay.userDirs && j < lay.entries
      ensures r == if Page(e, i, j) in Flat(vm)
                   then To(Flat(vm)[Page(e, i, j)].frame, Flat(vm)[Page(e, i, j)].flags) else Fault
      ensures r.To? ==> r.flags.p
    {
      assert Agrees(lay, mem, vm.names, vm.perm, Table(e, i));
      assert Agrees(lay, mem, vm.names, vm.perm, Page(e, i, j));
      var pde := mem[pgdir[e]][i];
      if !pde.flags.p {
        return Fault;
      }
      var pte := mem[pde.ppn][j];
      return if pte.flags.p then To(pte.ppn, pte.flags) else Fault;
    }

    /** *pte = w, for a present or a zero entry w. */
    method WriteEntry(e: nat, i: nat, j: nat, t: nat, w: Word)
      requires Represents(lay, mem, vm.names, vm.perm) && Private(vm) && Childless(vm, Page(e, i, j))
      requires i < lay.userDirs && j < lay.entries && Table(e, i) in vm.names && vm.names[Table(e, i)] == t
      requires w == ZERO || (w.flags.p && w.ppn < |mem|)
      modifies this`mem
      ensures OnlyRow(t, old(mem), mem)
      ensures w == ZERO ==> Represents(lay, mem, vm.names - {Page(e, i, j)}, vm.perm - {Page(e, i, j)})
      ensures w != ZERO ==> Represents(lay, mem, vm.names[Page(e, i, j) := w.ppn], vm.perm[Page(e, i, j) := w.flags])
    {
      if w == ZERO {
        StoreAbsent(lay, mem, vm, Page(e, i, j));
      } else {
        StorePresent(lay, mem, vm, Page(e, i, j), w);
      }
      mem := Store(mem, t, j, w);
    }

    /** page_decref, then *pte = 0. */
    method ClearPage(e: nat, i: nat, j: nat, t: nat, f: nat)
      requires Linked() && Private(vm) && Childless(vm, Page(e, i, j))
      requires i < lay.userDirs && j < lay.entries && Table(e, i) in vm.names && vm.names[Table(e, i)] == t
      requires Page(e, i, j) in vm.names && vm.names[Page(e, i, j)] == f && f !in vm.free
      modifies this`mem, this`refs, this`link, this`freeHead, this`vm
      ensures Linked()
      ensures vm == Drop(old(vm), Page(e, i, j))
      ensures OnlyRow(t, old(mem), mem)
    {
      PageDecref(f);
      WriteEntry(e, i, j, t, ZERO);
      vm := vm.(names := vm.names - {Page(e, i, j)}, perm := vm.perm - {Page(e, i, j)});
    }

    /** page_remove. */
    method PageRemove(e: nat, i: nat, j: nat)
      requires Valid() && Dir(e) in vm.names && i < lay.userDirs && j < lay.entries
      modifies this`mem, this`refs, this`link, this`freeHead, this`vm
      ensures Valid() && SameLeaks(old(vm), vm)
      ensures old(Page(e, i, j) in vm.names ==> vm.names[Page(e, i, j)] < |vm.refs|)
      ensures vm == Remove(old(vm), Page(e, i, j))
      ensures old(Table(e, i) in vm.names) ==> OnlyRow(old(vm.names[Table(e, i)]), old(mem), mem)
      ensures old(Table(e, i) !in vm.names) ==> mem == old(mem)
    {
      var r := PageLookup(e, i, j);
      if r == Fault {
        return;
      }
      LeafHasNoChild(vm, Page(e, i, j));
      DropKeepsInv(vm, Page(e, i, j));
      assert Agrees(lay, mem, vm.names, vm.perm, Table(e, i));
      ClearPage(e, i, j, mem[pgdir[e]][i].ppn, r.frame);
    }

    /** A page entry is filled and its reference counted. */
    method FillPage(e: nat, i: nat, j: nat, t: nat, f: nat, perm: Flags)
      requires Linked() && Private(vm) && Childless(vm, Page(e, i, j))
      requires i < lay.userDirs && j < lay.entries && Table(e, i) in vm.names && vm.names[Table(e, i)] == t
      requires Page(e, i, j) !in vm.names && f < |refs| && perm.p
      modifies this`mem, this`refs, this`vm
      ensures Linked()
      ensures vm == Add(old(vm), Page(e, i, j), f, perm)
      ensures OnlyRow(t, old(mem), mem)
    {
      WriteEntry(e, i, j, t, Word(f, perm));
      refs := refs[f := (refs[f] + 1) % REF_LIMIT];
      vm := Add(vm, Page(e, i, j), f, perm);
    }

    /** The same frame again: only the flags change. */
    method Reperm(e: nat, i: nat, j: nat, t: nat, f: nat, perm: Flags)
      requires Linked() && Private(vm) && Childless(vm, Page(e, i, j))
      requires i < lay.userDirs && j < lay.entries && Table(e, i) in vm.names && vm.names[Table(e, i)] == t
      requires Page(e, i, j) in vm.names && vm.names[Page(e, i, j)] == f && perm.p
      modifies this`mem, this`vm
      ensures Linked()
      ensures vm == old(vm).(perm := old(vm.perm)[Page(e, i, j) := perm])
      ensures OnlyRow(t, old(mem), mem)
    {
      WriteEntry(e, i, j, t, Word(f, perm));
      assert vm.names == vm.names[Page(e, i, j) := f];
      vm := vm.(perm := vm.perm[Page(e, i, j) := perm]);
    }

    /** *pte, for the table t. */
    method ReadEntry(e: nat, i: nat, j: nat, t: nat) returns (w: Word)
      requires Valid() && Table(e, i) in vm.names && vm.names[Table(e, i)] == t && i < lay.userDirs && j < lay.entries
      ensures w.flags.p <==> Page(e, i, j) in vm.names
      ensures w.flags.p ==> w.ppn == vm.names[Page(e, i, j)] && w.ppn < |vm.refs|
      ensures Childless(vm, Page(e, i, j))
    {
      assert Agrees(lay, mem, vm.names, vm.perm, Page(e, i, j));
      LeafHasNoChild(vm, Page(e, i, j));
      return mem[t][j];
    }

    /** Another frame was mapped: it goes first. */
    method Replace(e: nat, i: nat, j: nat, t: nat, f: nat, perm: Flags)
      requires Valid() && Dir(e) in vm.names && i < lay.userDirs && j < lay.entries && f < |refs| && perm.p
      requires Table(e, i) in vm.names && vm.names[Table(e, i)] == t
      requires Page(e, i, j) in vm.names && vm.names[Page(e, i, j)] < |vm.refs|
      modifies this`mem, this`refs, this`link, this`freeHead, this`vm
      ensures Linked()
      ensures vm == Add(Drop(old(vm), Page(e, i, j)), Page(e, i, j), f, perm)
      ensures OnlyRow(t, old(mem), mem)
    {
      PageRemove(e, i, j);
      LeafHasNoChild(vm, Page(e, i, j));
      FillPage(e, i, j, t, f, perm);
    }

    /** page_insert below the walk: same frame, other frame, or nothing there. */
    method MapInto(e: nat, i: nat, j: nat, t: nat, f: nat, perm: Flags)
      requires Valid() && Dir(e) in vm.names && i < lay.userDirs && j < lay.entries && f < |refs|
      requires Table(e, i) in vm.names && vm.names[Table(e, i)] == t
      modifies this`mem, this`refs, this`link, this`freeHead, this`vm
      ensures Linked()
      ensures old(Page(e, i, j) in vm.names ==> vm.names[Page(e, i, j)] < |vm.refs|)
      ensures vm == Map(old(vm), Page(e, i, j), f, perm)
      ensures OnlyRow(t, old(mem), mem)
    {
      var pte := ReadEntry(e, i, j, t);
      if pte.flags.p {
        if pte.ppn == f {
          Reperm(e, i, j, t, f, perm.(p := true));
          return;
        }
        Replace(e, i, j, t, f, perm.(p := true));
        return;
      }
      FillPage(e, i, j, t, f, perm.(p := true));
    }

    /** page_insert. On E_NO_MEM nothing has changed. */
    method PageInsert(e: nat, i: nat, j: nat, f: nat, perm: Flags) returns (r: int)
      requires Valid() && Dir(e) in vm.names && i < lay.userDirs && j < lay.entries && UserFrame(vm, f)
      modifies this`mem, this`refs, this`link, this`freeHead, this`vm
      ensures Linked()
      ensures r == if WalkFails(old(vm), Page(e, i, j)) then -E_NO_MEM else 0
      ensures r < 0 ==> vm == old(vm) && mem == old(mem)
      ensures vm == Insert(old(vm), Page(e, i, j), f, perm)
      ensures old(NoWrap(vm, f) || (Page(e, i, j) in vm.names && vm.names[Page(e, i, j)] == f)) ==> Valid()
      ensures SameData(old(vm), old(mem), mem)
    {
      var t := PgdirWalk(e, i, true);
      if t == NULL {
        return -E_NO_MEM;
      }
      InsertIsUpdate(old(vm), Page(e, i, j), f, perm);
      TableNotUser(old(vm), Page(e, i, j));
      ghost var mem1 := mem;
      MapInto(e, i, j, t, f, perm);
      SameDataThen(old(vm), old(mem), mem1, mem, t);
      return 0;
    }

    /** env_pgdir[i] = 0, then page_decref of the table that was there. */
    method ClearTable(e: nat, i: nat, t: nat)
      requires Linked() && Private(vm) && Childless(vm, Table(e, i)) && Dir(e) in vm.names
      requires i < lay.userDirs && Table(e, i) in vm.names && vm.names[Table(e, i)] == t && t !in vm.free
      modifies this`mem, this`refs, this`link, this`freeHead, this`vm
      ensures Linked()
      ensures vm == Drop(old(vm), Table(e, i))
      ensures OnlyRow(old(vm.names[Dir(e)]), old(mem), mem)
    {
      StoreAbsent(lay, mem, vm, Table(e, i));
      mem := Store(mem, pgdir[e], i, ZERO);
      PageDecref(t);
      vm := vm.(names := vm.names - {Table(e, i)}, perm := vm.perm - {Table(e, i)});
    }

    /** env_pgdir = 0, then page_decref of the directory. */
    method ClearDir(e: nat)
      requires Linked() && Private(vm) && Childless(vm, Dir(e)) && Dir(e) in vm.names && vm.names[Dir(e)] !in vm.free
      modifies this`refs, this`link, this`freeHead, this`pgdir, this`vm
      ensures Linked()
      ensures vm == Drop(old(vm), Dir(e))
    {
      DropDir(lay, mem, vm, e);
      var d := pgdir[e];
      pgdir := pgdir[e := NULL];
      PageDecref(d);
      vm := vm.(names := vm.names - {Dir(e)}, perm := vm.perm - {Dir(e)});
    }

    /** env_setup_vm: a fresh directory with the kernel's entries, UVPT mapped to itself. */
    method EnvSetupVm(e: nat, uvpt: nat) returns (r: int)
      requires Valid() && Dir(e) !in vm.names && e < |pgdir| && lay.userDirs <= uvpt < lay.entries
      modifies this`mem, this`refs, this`link, this`freeHead, this`pgdir, this`vm
      ensures Valid() && |pgdir| == |old(pgdir)|
      ensures r == if old(vm.free) == [] then -E_NO_MEM else 0
      ensures Next(old(vm), SetupVm(e), vm)
      ensures r == 0 ==> pgdir[e] == old(vm.free[0]) &&
                         mem[pgdir[e]] == kernDir[uvpt := Word(pgdir[e], NO_FLAGS.(p := true, u := true))]
      ensures r < 0 ==> mem == old(mem)
    {
      if vm.free != [] {
        TakeKeepsInv(vm);
        NewTableKeepsInv(vm, Dir(e));
      }
      var f := PageAlloc(true);
      if f == NULL {
        return -E_NO_MEM;
      }
      FillDir(e, f, uvpt);
      return 0;
    }

    method FillDir(e: nat, f: nat, uvpt: nat)
      requires Valid() && Dir(e) !in vm.names && e < |pgdir| && lay.userDirs <= uvpt < lay.entries
      requires LeakedAt(vm, f) && refs[f] == 0
      modifies this`mem, this`refs, this`pgdir, this`vm
      ensures Linked()
      ensures vm == Add(old(vm), Dir(e), f, NO_FLAGS)
      ensures |pgdir| == |old(pgdir)| && pgdir[e] == f && mem[f] == kernDir[uvpt := Word(f, NO_FLAGS.(p := true, u := true))]
    {
      refs := refs[f := (refs[f] + 1) % REF_LIMIT];
      pgdir := pgdir[e := f];
      var row := kernDir[uvpt := Word(f, NO_FLAGS.(p := true, u := true))];
      StoreData(lay, mem, vm, f, row);
      mem := mem[f := row];
      StoreDir(lay, mem, vm, e, f);
      vm := Add(vm, Dir(e), f, NO_FLAGS);
    }
  }
}
