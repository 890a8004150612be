/** The address-space half of kern/env.c: env_setup_vm and env_free. */
module EnvVm {
  import opened Vm
  import opened PageTables
  import opened VmRuns
  import opened Pmap

  /** env_free has already cleared s when it stands at directory slot i, table slot j. */
  predicate Gone(s: Site, e: nat, i: nat, j: nat) {
    s.env == e && match s
                  case Dir(_) => false
                  case Table(_, pdx) => pdx < i
                  case Page(_, pdx, ptx) => pdx < i || (pdx == i && ptx < j)
  }

  ghost function After(names: map<Site, nat>, e: nat, i: nat, j: nat): map<Site, nat> {
    names - set s | s in names && Gone(s, e, i, j)
  }

  lemma AfterPage(names: map<Site, nat>, e: nat, i: nat, j: nat)
    ensures After(names, e, i, j + 1) == After(names, e, i, j) - {Page(e, i, j)}
  {
  }

  lemma AfterTable(lay: Layout, names: map<Site, nat>, e: nat, i: nat)
    requires forall s :: s in names ==> InLayout(lay, s)
    ensures After(names, e, i + 1, 0) == After(names, e, i, lay.entries) - {Table(e, i)}
  {
  }

  lemma AfterNoTable(vm: Vm, e: nat, i: nat)
    requires Placed(vm) && Table(e, i) !in vm.names
    ensures After(vm.names, e, i + 1, 0) == After(vm.names, e, i, 0)
  {
  }

  lemma AfterAll(lay: Layout, names: map<Site, nat>, e: nat)
    requires forall s :: s in names ==> InLayout(lay, s)
    ensures Others(names, e) == After(names, e, lay.userDirs, 0) - {Dir(e)}
  {
  }

  /** env_free stands at (i, j): what it cleared so far is recorded in order. */
  ghost predicate Progress(vm0: Vm, order: seq<Site>, vm: Vm, e: nat, i: nat, j: nat) {
    Drops(vm0, order, vm) && vm.names == After(vm0.names, e, i, j)
  }

  ghost predicate InLayoutAll(lay: Layout, names: map<Site, nat>) {
    forall s :: s in names ==> InLayout(lay, s)
  }

  lemma PageCleared(vm0: Vm, order: seq<Site>, vm: Vm, e: nat, i: nat, j: nat)
    requires Inv(vm) && Progress(vm0, order, vm, e, i, j)
    requires Page(e, i, j) in vm.names
    ensures vm.names[Page(e, i, j)] < |vm.refs|
    ensures Progress(vm0, order + [Page(e, i, j)], Drop(vm, Page(e, i, j)), e, i, j + 1)
  {
    AfterPage(vm0.names, e, i, j);
    LeafHasNoChild(vm, Page(e, i, j));
    DropsAppend(vm0, order, vm, Page(e, i, j));
  }

  lemma PageAbsent(vm0: Vm, order: seq<Site>, vm: Vm, e: nat, i: nat, j: nat)
    requires Progress(vm0, order, vm, e, i, j)
    requires Page(e, i, j) !in vm.names
    ensures Progress(vm0, order, vm, e, i, j + 1)
  {
    AfterPage(vm0.names, e, i, j);
  }

  lemma TableCleared(lay: Layout, vm0: Vm, order: seq<Site>, vm: Vm, e: nat, i: nat)
    requires Inv(vm) && Progress(vm0, order, vm, e, i, lay.entries) && InLayoutAll(lay, vm0.names)
    requires Table(e, i) in vm.names
    ensures vm.names[Table(e, i)] < |vm.refs|
    ensures Childless(vm, Table(e, i)) && Inv(Drop(vm, Table(e, i)))
    ensures Progress(vm0, order + [Table(e, i)], Drop(vm, Table(e, i)), e, i + 1, 0)
  {
    AfterTable(lay, vm0.names, e, i);
    DropsAppend(vm0, order, vm, Table(e, i));
    DropKeepsInv(vm, Table(e, i));
  }

  lemma DirCleared(lay: Layout, vm0: Vm, order: seq<Site>, vm: Vm, e: nat)
    requires Inv(vm) && Progress(vm0, order, vm, e, lay.userDirs, 0) && InLayoutAll(lay, vm0.names)
    requires Dir(e) in vm.names
    ensures vm.names[Dir(e)] < |vm.refs|
    ensures Childless(vm, Dir(e)) && Inv(Drop(vm, Dir(e)))
    ensures EnvFreed(vm0, e, Drop(vm, Dir(e)))
  {
    AfterAll(lay, vm0.names, e);
    DropsAppend(vm0, order, vm, Dir(e));
    DropKeepsInv(vm, Dir(e));
    assert Drops(vm0, order + [Dir(e)], Drop(vm, Dir(e)));
  }

  /** Table t of slot i is being emptied and stands at j. */
  ghost predicate Emptying(k: PhysMem, vm0: Vm, order: seq<Site>, e: nat, i: nat, j: nat, t: nat)
    reads k
  {
    match vm0
    case Vm(_, _, _, _, _) =>
      && k.Valid() && Progress(vm0, order, k.vm, e, i, j)
      && Dir(e) in k.vm.names && Table(e, i) in k.vm.names && k.vm.names[Table(e, i)] == t
  }

  /** env_free stands at directory slot i. */
  ghost predicate Freeing(k: PhysMem, vm0: Vm, order: seq<Site>, e: nat, i: nat)
    reads k
  {
    match vm0
    case Vm(_, _, _, _, _) =>
      && k.Valid() && Inv(vm0) && InLayoutAll(k.lay, vm0.names)
      && Progress(vm0, order, k.vm, e, i, 0) && Dir(e) in k.vm.names
  }

  method UnmapSlot(k: PhysMem, e: nat, i: nat, j: nat, t: nat, ghost vm0: Vm, ghost before: seq<Site>)
    returns (ghost order: seq<Site>)
    requires Emptying(k, vm0, before, e, i, j, t) && i < k.lay.userDirs && j < k.lay.entries
    modifies k`mem, k`refs, k`link, k`freeHead, k`vm
    ensures Emptying(k, vm0, order, e, i, j + 1, t)
  {
    assert Agrees(k.lay, k.mem, k.vm.names, k.vm.perm, Page(e, i, j));
    if k.mem[t][j].flags.p {
      PageCleared(vm0, before, k.vm, e, i, j);
      order := before + [Page(e, i, j)];
      k.PageRemove(e, i, j);
    } else {
      PageAbsent(vm0, before, k.vm, e, i, j);
      order := before;
    }
  }

  /** env_free's inner loop: unmap every page of one table. */
  method UnmapTable(k: PhysMem, e: nat, i: nat, t: nat, ghost vm0: Vm, ghost before: seq<Site>)
    returns (ghost order: seq<Site>)
    requires Emptying(k, vm0, before, e, i, 0, t) && i < k.lay.userDirs
    modifies k`mem, k`refs, k`link, k`freeHead, k`vm
    ensures Emptying(k, vm0, order, e, i, k.lay.entries, t)
  {
    order := before;
    for j := 0 to k.lay.entries
      invariant Emptying(k, vm0, order, e, i, j, t)
    {
      order := UnmapSlot(k, e, i, j, t, vm0, order);
    }
  }

  /** env_free's outer loop body: empty the table of slot i and free its page. */
  method FreeSlot(k: PhysMem, e: nat, i: nat, ghost vm0: Vm, ghost before: seq<Site>)
    returns (ghost order: seq<Site>)
    requires Freeing(k, vm0, before, e, i) && i < k.lay.userDirs
    modifies k`mem, k`refs, k`link, k`freeHead, k`vm
    ensures Freeing(k, vm0, order, e, i + 1)
  {
    assert Agrees(k.lay, k.mem, k.vm.names, k.vm.perm, Table(e, i));
    var pde := k.mem[k.pgdir[e]][i];
    if !pde.flags.p {
      AfterNoTable(vm0, e, i);
      return before;
    }
    order := UnmapTable(k, e, i, pde.ppn, vm0, before);
    TableCleared(k.lay, vm0, order, k.vm, e, i);
    k.ClearTable(e, i, pde.ppn);
    order := order + [Table(e, i)];
  }

  /** env_free, for its effect on memory: every site of e is cleared, children
      first, and no other site is touched. */
  method EnvFree(k: PhysMem, e: nat)
    requires k.Valid() && Dir(e) in k.vm.names
    modifies k`mem, k`refs, k`link, k`freeHead, k`vm, k`pgdir
    ensures k.Valid() && EnvFreed(old(k.vm), e, k.vm)
  {
    ghost var vm0, order := k.vm, [];
    var i := 0;
    assert After(vm0.names, e, 0, 0) == vm0.names;
    while i < k.lay.userDirs
      invariant 0 <= i <= k.lay.userDirs
      invariant Freeing(k, vm0, order, e, i)
    {
      order := FreeSlot(k, e, i, vm0, order);
      i := i + 1;
    }
    DirCleared(k.lay, vm0, order, k.vm, e);
    k.ClearDir(e);
  }
}
