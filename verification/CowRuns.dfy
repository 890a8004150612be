/** Runs of the code, user stores, pgfault, duppage, sys_page_alloc and sys_page_unmap
    over physical memory, are runs of module Cow's copy-on-write machine. */
module CowRuns {
  import opened Options
  import opened Vm
  import opened PageTables
  import opened VmRuns
  import opened Pmap
  import opened PageSyscalls
  import opened Cow
  import opened Fork

  /** l is what memory holds, up to the rows of frames that nobody maps. */
  ghost predicate Projects(lay: Layout, vm: Vm, mem: Memory, l: Lazy) {
    match l
    case Lazy(page, data) =>
      && page == Flat(vm) && |data| == |mem| && (forall f :: 0 <= f < |data| ==> |data[f]| == lay.entries)
      && (forall s :: s in page ==> page[s].frame < |mem| && data[page[s].frame] == mem[page[s].frame])
  }

  /** A mapped row before and after. */
  lemma KeptRow(flat: map<Site, Mapping>, mem: Memory, mem': Memory, s: Site)
    requires Kept(flat, mem, mem') && s in flat && flat[s].frame < |mem|
    ensures |mem'| == |mem| && mem'[flat[s].frame] == mem[flat[s].frame]
  {
  }

  /** One step of the machine from l, and memory holds the state after it. */
  ghost predicate Took(k: PhysMem, l: Lazy, step: Step)
    reads k
  {
    Enabled(l, step) && Projects(k.lay, k.vm, k.mem, LazyStep(l, step))
  }

  /** The frame page_alloc hands out next. */
  ghost function Spare(vm: Vm): nat {
    if vm.free == [] then 0 else vm.free[0]
  }

  // ----- one call, one step -----

  /** A store to a writable page. */
  method StoreDirect(k: PhysMem, e: nat, i: nat, j: nat, at: nat, w: Word, ghost l: Lazy)
    requires k.Valid() && Projects(k.lay, k.vm, k.mem, l) && LazyInv(l) && Dir(e) in k.vm.names
    requires i < k.lay.userDirs && j < k.lay.entries && at < k.lay.entries
    requires Page(e, i, j) in Flat(k.vm) && Flat(k.vm)[Page(e, i, j)].flags.w
    modifies k`mem
    ensures k.Valid() && Took(k, l, Write(Page(e, i, j), at, w, Spare(k.vm)))
  {
    var ok := UserStore(k, e, i, j, at, w);
  }

  /** A store to a copy-on-write page: it faults, pgfault copies, and the store is repeated. */
  method StoreCow(k: PhysMem, e: nat, i: nat, j: nat, pi: nat, pj: nat, at: nat, w: Word, ghost l: Lazy)
    returns (ok: bool)
    requires k.Valid() && Projects(k.lay, k.vm, k.mem, l) && LazyInv(l) && Dir(e) in k.vm.names
    requires i < k.lay.userDirs && j < k.lay.entries && at < k.lay.entries
    requires pi < k.lay.userDirs && pj < k.lay.entries && (pi, pj) != (i, j) && Page(e, pi, pj) !in Flat(k.vm)
    requires Page(e, i, j) in Flat(k.vm) && !Flat(k.vm)[Page(e, i, j)].flags.w && Flat(k.vm)[Page(e, i, j)].flags.cow
    modifies k`mem, k`refs, k`link, k`freeHead, k`vm
    ensures k.Valid() && SameDirs(old(k.vm), k.vm)
    ensures ok <==> Room(old(k.vm), Page(e, pi, pj))
    ensures ok ==> Took(k, l, Write(Page(e, i, j), at, w, Spare(old(k.vm))))
    ensures !ok ==> k.vm == old(k.vm) && Projects(k.lay, k.vm, k.mem, l)
  {
    ghost var a, n := Page(e, i, j), Spare(k.vm);
    ok := Pgfault(k, e, i, j, pi, pj, true);
    if !ok {
      KeptProjects(k.lay, k.vm, old(k.mem), k.mem, l);
      return;
    }
    ghost var mem1 := k.mem;
    CopyProjects(k.lay, old(k.vm), old(k.mem), l, a, Page(e, pi, pj), n, mem1, k.vm);
    var stored := UserStore(k, e, i, j, at, w);
    StoreProjects(k.lay, k.vm, mem1, l, a, n, at, w);
  }

  /** What memory holds does not change with rows that nobody maps. */
  lemma KeptProjects(lay: Layout, vm: Vm, mem: Memory, mem': Memory, l: Lazy)
    requires Projects(lay, vm, mem, l) && Kept(Flat(vm), mem, mem')
    ensures Projects(lay, vm, mem', l)
  {
    forall s | s in Flat(vm) ensures mem'[Flat(vm)[s].frame] == mem[Flat(vm)[s].frame] {
      KeptRow(Flat(vm), mem, mem', s);
    }
  }

  /** After pgfault: the page is in its new frame, every other mapped row as before. */
  lemma CopyProjects(lay: Layout, vm: Vm, mem: Memory, l: Lazy, a: Site, t: Site, n: nat, mem1: Memory, vm1: Vm)
    requires Projects(lay, vm, mem, l) && a in Flat(vm) && t !in Flat(vm) && a != t && n < |mem1| == |mem| && !Named(vm, n)
    requires Flat(vm1) == (Flat(vm) - {t})[a := Mapping(n, PUW)] && mem1[n] == mem[Flat(vm)[a].frame]
    requires Kept(Flat(vm) - {a, t}, mem, mem1)
    ensures Fresh(l, n) && Flat(vm1) == l.page[a := Mapping(n, PUW)]
    ensures forall s :: s in l.page && s != a ==> l.page[s].frame < |mem1| && mem1[l.page[s].frame] == l.data[l.page[s].frame]
    ensures mem1[n] == l.data[l.page[a].frame]
  {
    assert Flat(vm) - {t} == Flat(vm);
    FreshApart(vm, n);
    forall s | s in l.page && s != a ensures mem1[l.page[s].frame] == l.data[l.page[s].frame] {
      assert s in Flat(vm) - {a, t};
      KeptRow(Flat(vm) - {a, t}, mem, mem1, s);
    }
  }

  lemma StoreProjects(lay: Layout, vm1: Vm, mem1: Memory, l: Lazy, a: Site, n: nat, at: nat, w: Word)
    requires a in l.page && l.page[a].frame < |l.data| == |mem1| && Fresh(l, n) && at < lay.entries
    requires !l.page[a].flags.w && l.page[a].flags.cow && Flat(vm1) == l.page[a := Mapping(n, PUW)]
    requires forall f :: 0 <= f < |l.data| ==> |l.data[f]| == lay.entries
    requires forall s :: s in l.page && s != a ==> l.page[s].frame < |mem1| && mem1[l.page[s].frame] == l.data[l.page[s].frame]
    requires mem1[n] == l.data[l.page[a].frame]
    ensures Enabled(l, Write(a, at, w, n))
    ensures Projects(lay, vm1, mem1[n := mem1[n][at := w]], LazyStep(l, Write(a, at, w, n)))
  {
  }

  /** duppage. */
  method Dup(k: PhysMem, e: nat, c: nat, i: nat, j: nat, ghost l: Lazy) returns (ok: bool)
    requires k.Valid() && Projects(k.lay, k.vm, k.mem, l) && e != c && Dir(e) in k.vm.names && Dir(c) in k.vm.names
    requires i < k.lay.userDirs && j < k.lay.entries && Page(e, i, j) in Flat(k.vm)
    requires CountFits(k.vm, Page(e, i, j), Page(c, i, j))
    modifies k`mem, k`refs, k`link, k`freeHead, k`vm
    ensures k.Valid() && SameDirs(old(k.vm), k.vm)
    ensures ok <==> !WalkFails(old(k.vm), Page(c, i, j))
    ensures ok ==> Took(k, l, Step.Dup(Page(e, i, j), Page(c, i, j)))
    ensures !ok ==> k.vm == old(k.vm) && k.mem == old(k.mem)
  {
    ok := Duppage(k, e, c, i, j);
    if ok {
      DupProjects(k.lay, old(k.vm), old(k.mem), l, Page(e, i, j), Page(c, i, j), k.vm, k.mem);
    }
  }

  lemma DupProjects(lay: Layout, vm: Vm, mem: Memory, l: Lazy, a: Site, b: Site, vm': Vm, mem': Memory)
    requires Projects(lay, vm, mem, l) && a in Flat(vm) && a != b && Flat(vm') == DupPage(Flat(vm), a, b)
    requires Kept(Spared(Flat(vm), b, Flat(vm)[a].frame), mem, mem')
    ensures Enabled(l, Step.Dup(a, b)) && Projects(lay, vm', mem', LazyStep(l, Step.Dup(a, b)))
  {
    var spared := Spared(Flat(vm), b, Flat(vm)[a].frame);
    forall s | s in spared
      ensures s in Flat(vm) && Flat(vm)[s].frame < |mem'| && mem'[Flat(vm)[s].frame] == mem[Flat(vm)[s].frame]
    {
      KeptRow(spared, mem, mem', s);
    }
    assert a in spared;
  }

  /** sys_page_alloc. */
  method AllocPage(k: PhysMem, e: nat, i: nat, j: nat, perm: Flags, ghost l: Lazy) returns (ok: bool)
    requires k.Valid() && Projects(k.lay, k.vm, k.mem, l) && Dir(e) in k.vm.names
    requires i < k.lay.userDirs && j < k.lay.entries && perm.u && !(perm.share && perm.cow)
    modifies k`mem, k`refs, k`link, k`freeHead, k`vm
    ensures k.Valid() && SameDirs(old(k.vm), k.vm)
    ensures ok <==> Room(old(k.vm), Page(e, i, j))
    ensures ok ==> Took(k, l, Alloc(Page(e, i, j), perm.(p := true), Spare(old(k.vm))))
    ensures !ok ==> k.vm == old(k.vm) && Projects(k.lay, k.vm, k.mem, l)
  {
    var r := SysPageAlloc(k, Some(e), i, j, perm);
    ok := r == 0;
    SameDataKept(old(k.vm), old(k.mem), k.mem);
    if !ok {
      NoRoomSame(old(k.vm), e, i, j, perm, k.vm);
      KeptProjects(k.lay, k.vm, old(k.mem), k.mem, l);
    } else {
      AllocProjects(k.lay, old(k.vm), old(k.mem), l, Page(e, i, j), perm.(p := true), old(k.vm.free)[0], k.vm, k.mem);
    }
  }

  lemma AllocProjects(lay: Layout, vm: Vm, mem: Memory, l: Lazy, a: Site, perm: Flags, f: nat, vm': Vm, mem': Memory)
    requires Projects(lay, vm, mem, l) && f < |mem'| && !Named(vm, f) && perm.u && !(perm.share && perm.cow)
    requires Flat(vm') == Flat(vm)[a := Mapping(f, perm)] && mem'[f] == seq(lay.entries, x => ZERO) && Kept(Flat(vm), mem, mem')
    ensures Enabled(l, Alloc(a, perm, f)) && Projects(lay, vm', mem', LazyStep(l, Alloc(a, perm, f)))
  {
    FreshApart(vm, f);
    forall s | s in Flat(vm) ensures Flat(vm)[s].frame < |mem'| && mem'[Flat(vm)[s].frame] == mem[Flat(vm)[s].frame] {
      KeptRow(Flat(vm), mem, mem', s);
    }
  }

  /** sys_page_unmap. */
  method UnmapPage(k: PhysMem, e: nat, i: nat, j: nat, ghost l: Lazy)
    requires k.Valid() && Projects(k.lay, k.vm, k.mem, l) && Dir(e) in k.vm.names && i < k.lay.userDirs && j < k.lay.entries
    modifies k`mem, k`refs, k`link, k`freeHead, k`vm
    ensures k.Valid() && SameDirs(old(k.vm), k.vm) && Took(k, l, Unmap(Page(e, i, j)))
  {
    var r := SysPageUnmap(k, Some(e), i, j);
    SameDataKept(old(k.vm), old(k.mem), k.mem);
    forall s | s in Flat(k.vm) ensures k.mem[Flat(k.vm)[s].frame] == l.data[Flat(k.vm)[s].frame] {
      KeptRow(Flat(old(k.vm)), old(k.mem), k.mem, s);
    }
  }

  // ----- whole runs -----

  /** What an environment does next; a page is (i, j). */
  datatype Act =
    | Store(e: nat, i: nat, j: nat, at: nat, w: Word)
    | Copy(e: nat, c: nat, i: nat, j: nat)
    | New(e: nat, i: nat, j: nat, perm: Flags)
    | Drop(e: nat, i: nat, j: nat)

  /** Addresses are user addresses of environments that exist; a page is only given flags the
      machine covers, and never mapped where pgfault works. */
  predicate Fits(lay: Layout, vm: Vm, act: Act, pi: nat, pj: nat) {
    && act.i < lay.userDirs && act.j < lay.entries && (act.i, act.j) != (pi, pj) && Dir(act.e) in vm.names
    && match act
       case Store(_, _, _, at, _) => at < lay.entries
       case Copy(e, c, _, _) => e != c && Dir(c) in vm.names
       case New(_, _, _, perm) => perm.u && !(perm.share && perm.cow)
       case Drop(_, _, _) => true
  }

  /** PFTEMP is mapped in no environment. */
  ghost predicate TempFree(page: map<Site, Mapping>, pi: nat, pj: nat) {
    forall s :: s in page && s.Page? ==> (s.pdx, s.ptx) != (pi, pj)
  }

  function Subject(act: Act): Site {
    Page(act.e, act.i, act.j)
  }

  /** What an act asks of the machine; spare is the frame page_alloc hands out, when one is needed. */
  function StepOf(act: Act, spare: nat): Step {
    match act
    case Store(e, i, j, at, w) => Write(Page(e, i, j), at, w, spare)
    case Copy(e, c, i, j) => Step.Dup(Page(e, i, j), Page(c, i, j))
    case New(e, i, j, perm) => Alloc(Page(e, i, j), perm.(p := true), spare)
    case Drop(e, i, j) => Unmap(Page(e, i, j))
  }

  /** A store to a page that is not there does nothing, and fork passes over it. */
  predicate Idle(act: Act, page: map<Site, Mapping>) {
    (act.Store? || act.Copy?) && Subject(act) !in page
  }

  /** The machine does what the act asks. */
  ghost predicate Acts(l: Lazy, act: Act, spare: nat, l': Lazy) {
    if Idle(act, l.page) then l' == l
    else Enabled(l, StepOf(act, spare)) && l' == LazyStep(l, StepOf(act, spare))
  }

  /** Memory holds l, which meets the machine's invariant. */
  ghost predicate Stands(k: PhysMem, l: Lazy, pi: nat, pj: nat)
    reads k
  {
    match l
    case Lazy(page, _) => Projects(k.lay, k.vm, k.mem, l) && LazyInv(l) && TempFree(page, pi, pj)
  }

  lemma ActDone(k: PhysMem, l: Lazy, act: Act, spare: nat, vm: Vm, pi: nat, pj: nat)
    requires LazyInv(l) && TempFree(l.page, pi, pj) && Fits(k.lay, vm, act, pi, pj)
    requires !Idle(act, l.page) && Took(k, l, StepOf(act, spare))
    ensures Acts(l, act, spare, LazyStep(l, StepOf(act, spare)))
    ensures Stands(k, LazyStep(l, StepOf(act, spare)), pi, pj)
  {
    StepKeepsLazyInv(l, StepOf(act, spare));
  }

  ghost predicate Ready(k: PhysMem, l: Lazy, act: Act, pi: nat, pj: nat)
    reads k
  {
    k.Valid() && Stands(k, l, pi, pj) && Fits(k.lay, k.vm, act, pi, pj) && pi < k.lay.userDirs && pj < k.lay.entries
  }

  /** When an act ends the run: no frame for a copy, a new page or a table, where one
      is needed; or a 16-bit count that would wrap. */
  ghost predicate Stuck(vm: Vm, act: Act, pi: nat, pj: nat) {
    var flat := Flat(vm);
    match act
    case Store(e, i, j, _, _) =>
      var a := Page(e, i, j);
      a in flat && !flat[a].flags.w && flat[a].flags.cow && !Room(vm, Page(e, pi, pj))
    case Copy(e, c, i, j) =>
      Page(e, i, j) in flat && (WalkFails(vm, Page(c, i, j)) || !CountFits(vm, Page(e, i, j), Page(c, i, j)))
    case New(e, i, j, _) => !Room(vm, Page(e, i, j))
    case Drop(_, _, _) => false
  }

  /** The act was done, or it could not be and nothing has changed. */
  ghost predicate Did(k: PhysMem, vm: Vm, l: Lazy, act: Act, l': Lazy, ok: bool, pi: nat, pj: nat)
    reads k
  {
    Stands(k, l', pi, pj) && if ok then Acts(l, act, Spare(vm), l') else l' == l && k.vm == vm
  }

  method DoStore(k: PhysMem, act: Act, pi: nat, pj: nat, ghost l: Lazy) returns (ok: bool, ghost l': Lazy)
    requires act.Store? && Ready(k, l, act, pi, pj)
    modifies k`mem, k`refs, k`link, k`freeHead, k`vm
    ensures k.Valid() && SameDirs(old(k.vm), k.vm)
    ensures Did(k, old(k.vm), l, act, l', ok, pi, pj)
    ensures ok <==> !Stuck(old(k.vm), act, pi, pj)
  {
    ok, l' := true, l;
    var pte := k.PageLookup(act.e, act.i, act.j);
    if pte.Fault? {
      return;
    }
    ghost var step := StepOf(act, Spare(k.vm));
    if pte.flags.w {
      StoreDirect(k, act.e, act.i, act.j, act.at, act.w, l);
    } else if pte.flags.cow {
      ok := StoreCow(k, act.e, act.i, act.j, pi, pj, act.at, act.w, l);
    }
    if ok {
      l' := LazyStep(l, step);
      ActDone(k, l, act, Spare(old(k.vm)), old(k.vm), pi, pj);
    }
  }

  method DoCopy(k: PhysMem, act: Act, pi: nat, pj: nat, ghost l: Lazy) returns (ok: bool, ghost l': Lazy)
    requires act.Copy? && Ready(k, l, act, pi, pj)
    modifies k`mem, k`refs, k`link, k`freeHead, k`vm
    ensures k.Valid() && SameDirs(old(k.vm), k.vm)
    ensures Did(k, old(k.vm), l, act, l', ok, pi, pj)
    ensures ok <==> !Stuck(old(k.vm), act, pi, pj)
  {
    ok, l' := true, l;
    var pte := k.PageLookup(act.e, act.i, act.j);
    if pte.Fault? {
      return;
    }
    var there := k.PageLookup(act.c, act.i, act.j);
    if !(there.To? && there.frame == pte.frame) && pte.frame < |k.refs| && k.refs[pte.frame] + 1 >= REF_LIMIT {
      return false, l;
    }
    ok := Dup(k, act.e, act.c, act.i, act.j, l);
    if ok {
      l' := LazyStep(l, StepOf(act, Spare(old(k.vm))));
      ActDone(k, l, act, Spare(old(k.vm)), old(k.vm), pi, pj);
    }
  }

  method DoMap(k: PhysMem, act: Act, pi: nat, pj: nat, ghost l: Lazy) returns (ok: bool, ghost l': Lazy)
    requires (act.New? || act.Drop?) && Ready(k, l, act, pi, pj)
    modifies k`mem, k`refs, k`link, k`freeHead, k`vm
    ensures k.Valid() && SameDirs(old(k.vm), k.vm)
    ensures Did(k, old(k.vm), l, act, l', ok, pi, pj)
    ensures ok <==> !Stuck(old(k.vm), act, pi, pj)
  {
    ok, l' := true, l;
    if act.New? {
      ok := AllocPage(k, act.e, act.i, act.j, act.perm, l);
    } else {
      UnmapPage(k, act.e, act.i, act.j, l);
    }
    if ok {
      l' := LazyStep(l, StepOf(act, Spare(old(k.vm))));
      ActDone(k, l, act, Spare(old(k.vm)), old(k.vm), pi, pj);
    }
  }

  /** One act by the code: the machine's step for that act, or none exactly if it is stuck. */
  method Perform(k: PhysMem, act: Act, pi: nat, pj: nat, ghost l: Lazy) returns (ok: bool, ghost l': Lazy)
    requires Ready(k, l, act, pi, pj)
    modifies k`mem, k`refs, k`link, k`freeHead, k`vm
    ensures k.Valid() && SameDirs(old(k.vm), k.vm)
    ensures Did(k, old(k.vm), l, act, l', ok, pi, pj)
    ensures ok <==> !Stuck(old(k.vm), act, pi, pj)
  {
    if act.Store? {
      ok, l' := DoStore(k, act, pi, pj, l);
    } else if act.Copy? {
      ok, l' := DoCopy(k, act, pi, pj, l);
    } else {
      ok, l' := DoMap(k, act, pi, pj, l);
    }
  }

  /** The machine does the first |spares| acts, one after the other. */
  ghost predicate ActRun(ls: seq<Lazy>, acts: seq<Act>, spares: seq<nat>) {
    && |ls| == |spares| + 1 && |spares| <= |acts|
    && forall i {:trigger acts[i]} :: 0 <= i < |spares| ==> Acts(ls[i], acts[i], spares[i], ls[i + 1])
  }

  /** Every run of the code is a run of the machine on the same acts, as far as the first
      that is stuck, and memory holds its last state. */
  method RunActs(k: PhysMem, acts: seq<Act>, pi: nat, pj: nat, ghost l: Lazy)
    returns (n: nat, ghost ls: seq<Lazy>, ghost spares: seq<nat>)
    requires k.Valid() && Stands(k, l, pi, pj) && pi < k.lay.userDirs && pj < k.lay.entries
    requires forall i :: 0 <= i < |acts| ==> Fits(k.lay, k.vm, acts[i], pi, pj)
    modifies k`mem, k`refs, k`link, k`freeHead, k`vm
    ensures k.Valid() && |spares| == n <= |acts|
    ensures ActRun(ls, acts, spares) && ls[0] == l && Stands(k, ls[n], pi, pj)
    ensures n < |acts| ==> Stuck(k.vm, acts[n], pi, pj)
  {
    n, ls, spares := 0, [l], [];
    ghost var dirs := k.vm;
    while n < |acts|
      invariant n == |spares| <= |acts| && k.Valid() && SameDirs(dirs, k.vm)
      invariant ActRun(ls, acts, spares) && ls[0] == l && Stands(k, ls[n], pi, pj)
    {
      assert Fits(k.lay, k.vm, acts[n], pi, pj);
      ghost var spare := Spare(k.vm);
      var ok; ghost var l';
      ok, l' := Perform(k, acts[n], pi, pj, ls[n]);
      if !ok {
        return;
      }
      RunGrows(ls, acts, spares, spare, l');
      n, ls, spares := n + 1, ls + [l'], spares + [spare];
    }
  }

  lemma RunGrows(ls: seq<Lazy>, acts: seq<Act>, spares: seq<nat>, spare: nat, l': Lazy)
    requires ActRun(ls, acts, spares) && |spares| < |acts| && Acts(ls[|spares|], acts[|spares|], spare, l')
    ensures ActRun(ls + [l'], acts, spares + [spare])
  {
    var ls', spares' := ls + [l'], spares + [spare];
    forall i | 0 <= i < |spares'| ensures Acts(ls'[i], acts[i], spares'[i], ls'[i + 1]) {
      if i < |spares| {
        assert Acts(ls[i], acts[i], spares[i], ls[i + 1]);
      }
    }
  }

  // ----- the same acts with eager copying -----

  /** What eager copying makes of the acts, the frames for new pages being those the code was
      given. It knows nothing of copy-on-write: it does each act, or nothing if the page is not there. */
  ghost function EagerAfter(g: Eager, acts: seq<Act>, spares: seq<nat>): Eager
    requires |spares| <= |acts|
    decreases |spares|
  {
    if spares == [] then g
    else
      var n := |spares| - 1;
      var g', step := EagerAfter(g, acts, spares[..n]), StepOf(acts[n], spares[n]);
      if EagerEnabled(g', step) then EagerStep(g', step) else g'
  }

  /** Memory holds, for every page of every environment, what g shows, and no other page. */
  ghost predicate Shows(vm: Vm, mem: Memory, g: Eager) {
    && Flat(vm).Keys == g.page.Keys && EagerOk(g)
    && forall s :: s in g.page ==> Flat(vm)[s].frame < |mem| && mem[Flat(vm)[s].frame] == EagerView(g, s)
  }

  lemma {:induction false} ActsRelated(ls: seq<Lazy>, g: Eager, acts: seq<Act>, spares: seq<nat>, n: nat)
    requires ActRun(ls, acts, spares) && Related(ls[0], g) && n <= |spares|
    ensures Related(ls[n], EagerAfter(g, acts, spares[..n]))
  {
    if n > 0 {
      ActsRelated(ls, g, acts, spares, n - 1);
      assert spares[..n][..n - 1] == spares[..n - 1];
      var l, g', act := ls[n - 1], EagerAfter(g, acts, spares[..n - 1]), acts[n - 1];
      assert Acts(l, act, spares[n - 1], ls[n]);
      if !Idle(act, l.page) {
        StepKeeps(l, g', StepOf(act, spares[n - 1]));
      }
    }
  }

  /** So after any run of the code, memory holds for every environment what eager copying
      would have put there for the same acts. */
  method MemoryIsEager(k: PhysMem, acts: seq<Act>, pi: nat, pj: nat, ghost g: Eager) returns (n: nat, ghost spares: seq<nat>)
    requires k.Valid() && TempFree(Flat(k.vm), pi, pj) && pi < k.lay.userDirs && pj < k.lay.entries
    requires Related(Lazy(Flat(k.vm), k.mem), g)
    requires forall i :: 0 <= i < |acts| ==> Fits(k.lay, k.vm, acts[i], pi, pj)
    modifies k`mem, k`refs, k`link, k`freeHead, k`vm
    ensures k.Valid() && |spares| == n <= |acts|
    ensures Shows(k.vm, k.mem, EagerAfter(g, acts, spares))
    ensures n < |acts| ==> Stuck(k.vm, acts[n], pi, pj)
  {
    ghost var ls;
    n, ls, spares := RunActs(k, acts, pi, pj, Lazy(Flat(k.vm), k.mem));
    ActsRelated(ls, g, acts, spares, n);
    assert spares[..n] == spares;
    RelatedShows(k.lay, k.vm, k.mem, ls[n], EagerAfter(g, acts, spares));
  }

  lemma RelatedShows(lay: Layout, vm: Vm, mem: Memory, l: Lazy, g: Eager)
    requires Projects(lay, vm, mem, l) && Related(l, g)
    ensures Shows(vm, mem, g)
  {
    forall s | s in g.page
      ensures g.page[s].Common? ==> g.page[s].cell < |g.cell|
      ensures Flat(vm)[s].frame < |mem| && mem[Flat(vm)[s].frame] == EagerView(g, s)
    {
      assert SamePage(l, g, s);
    }
  }
}
