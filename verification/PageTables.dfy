/** Physical memory holding the two-level page tables, and what it means for
    it to represent a flat state of module Vm. */
module PageTables {
  import opened Vm

  /** A 32-bit word of physical memory, seen as an entry: its upper 20 bits and its lower 12. */
  datatype Word = Word(ppn: nat, flags: Flags)

  const ZERO := Word(0, NO_FLAGS)

  /** One row of words per frame. Rows of user pages hold arbitrary words. */
  type Memory = seq<seq<Word>>

  /** NPTENTRIES words to a page; the first PDX(UTOP) entries of a directory are the user half. */
  datatype Layout = Layout(entries: nat, userDirs: nat)

  predicate InLayout(lay: Layout, s: Site) {
    match s
    case Dir(_) => true
    case Table(_, i) => i < lay.userDirs
    case Page(_, i, j) => i < lay.userDirs && j < lay.entries
  }

  /** The site whose frame stores the entry for s, and the entry's index there. */
  function Parent(s: Site): Site
    requires !s.Dir?
  {
    if s.Table? then Dir(s.env) else Table(s.env, s.pdx)
  }

  function Index(s: Site): nat
    requires !s.Dir?
  {
    if s.Table? then s.pdx else s.ptx
  }

  ghost predicate Shaped(lay: Layout, mem: Memory, names: map<Site, nat>) {
    && lay.userDirs <= lay.entries
    && (forall f :: 0 <= f < |mem| ==> |mem[f]| == lay.entries)
    && (forall s :: s in names ==> names[s] < |mem| && InLayout(lay, s))
  }

  /** An occupied site's entry is present and holds the frame and, for a page, the flags
      recorded there; a table's entry takes no access away; every other entry is zero. */
  ghost predicate Agrees(lay: Layout, mem: Memory, names: map<Site, nat>, perm: map<Site, Flags>, s: Site)
    requires Shaped(lay, mem, names)
  {
    !s.Dir? && InLayout(lay, s) && Parent(s) in names ==>
      var w := mem[names[Parent(s)]][Index(s)];
      && (s in names ==> w.flags.p && w.ppn == names[s])
      && (s in names && s.Table? ==> w.flags.w && w.flags.u)
      && (s !in names ==> w == ZERO)
      && (s in perm ==> w.flags == perm[s])
  }

  ghost predicate Represents(lay: Layout, mem: Memory, names: map<Site, nat>, perm: map<Site, Flags>) {
    && Shaped(lay, mem, names)
    && forall s: Site {:trigger Agrees(lay, mem, names, perm, s)} :: Agrees(lay, mem, names, perm, s)
  }

  /** The hardware's translation, as check_va2pa spells it out. */
  datatype Translation = Fault | To(frame: nat, flags: Flags)

  function Translate(lay: Layout, mem: Memory, dir: nat, pdx: nat, ptx: nat): Translation
    requires dir < |mem| && pdx < |mem[dir]|
    requires mem[dir][pdx].flags.p ==> mem[dir][pdx].ppn < |mem| && ptx < |mem[mem[dir][pdx].ppn]|
  {
    if !mem[dir][pdx].flags.p then Fault
    else
      var w := mem[mem[dir][pdx].ppn][ptx];
      if w.flags.p then To(w.ppn, w.flags) else Fault
  }

  /** The two-level walk computes the flat map, for every environment and every user page. */
  lemma TranslateIsFlat(lay: Layout, mem: Memory, vm: Vm, s: Site)
    requires Represents(lay, mem, vm.names, vm.perm) && Inv(vm)
    requires s.Page? && InLayout(lay, s) && Dir(s.env) in vm.names
    ensures Translate.requires(lay, mem, vm.names[Dir(s.env)], s.pdx, s.ptx)
    ensures Translate(lay, mem, vm.names[Dir(s.env)], s.pdx, s.ptx) ==
            if s in Flat(vm) then To(Flat(vm)[s].frame, Flat(vm)[s].flags) else Fault
  {
    assert Agrees(lay, mem, vm.names, vm.perm, Table(s.env, s.pdx));
    assert Agrees(lay, mem, vm.names, vm.perm, s);
  }

  /** The hardware's test of a user-mode load or store: both levels must be present, let the
      user in and, for a store, be writable. */
  predicate UserMay(lay: Layout, mem: Memory, dir: nat, pdx: nat, ptx: nat, write: bool)
    requires dir < |mem| && pdx < |mem[dir]|
    requires mem[dir][pdx].flags.p ==> mem[dir][pdx].ppn < |mem| && ptx < |mem[mem[dir][pdx].ppn]|
  {
    var pde := mem[dir][pdx].flags;
    && pde.p && pde.u && (write ==> pde.w)
    && var pte := mem[mem[dir][pdx].ppn][ptx].flags;
       pte.p && pte.u && (write ==> pte.w)
  }

  /** The user may do with a page what the flags recorded for it say, and nothing where there is none. */
  lemma UserMayIsFlat(lay: Layout, mem: Memory, vm: Vm, s: Site, write: bool)
    requires Represents(lay, mem, vm.names, vm.perm) && Inv(vm)
    requires s.Page? && InLayout(lay, s) && Dir(s.env) in vm.names
    ensures UserMay.requires(lay, mem, vm.names[Dir(s.env)], s.pdx, s.ptx, write)
    ensures UserMay(lay, mem, vm.names[Dir(s.env)], s.pdx, s.ptx, write) <==>
            s in Flat(vm) && Flat(vm)[s].flags.u && (write ==> Flat(vm)[s].flags.w)
  {
    assert Agrees(lay, mem, vm.names, vm.perm, Table(s.env, s.pdx));
    assert Agrees(lay, mem, vm.names, vm.perm, s);
  }

  // ----- single writes to memory -----

  function Store(mem: Memory, f: nat, i: nat, w: Word): Memory
    requires f < |mem| && i < |mem[f]|
  {
    mem[f := mem[f][i := w]]
  }

  /** Writing the entry of s changes that entry and no other. */
  lemma OtherEntry(lay: Layout, mem: Memory, vm: Vm, s: Site, w: Word, x: Site)
    requires Shaped(lay, mem, vm.names) && Private(vm)
    requires !s.Dir? && InLayout(lay, s) && Parent(s) in vm.names
    requires !x.Dir? && InLayout(lay, x) && Parent(x) in vm.names && x != s
    ensures Store(mem, vm.names[Parent(s)], Index(s), w)[vm.names[Parent(x)]][Index(x)] ==
            mem[vm.names[Parent(x)]][Index(x)]
  {
  }

  /** *pte = pa | perm | PTE_P. */
  lemma StorePresent(lay: Layout, mem: Memory, vm: Vm, s: Site, w: Word)
    requires Represents(lay, mem, vm.names, vm.perm) && Private(vm)
    requires s.Page? && InLayout(lay, s) && Parent(s) in vm.names
    requires w.flags.p && w.ppn < |mem|
    ensures Represents(lay, Store(mem, vm.names[Parent(s)], Index(s), w), vm.names[s := w.ppn], vm.perm[s := w.flags])
  {
    var mem' := Store(mem, vm.names[Parent(s)], Index(s), w);
    var names', perm' := vm.names[s := w.ppn], vm.perm[s := w.flags];
    forall x: Site ensures Agrees(lay, mem', names', perm', x) {
      assert Agrees(lay, mem, vm.names, vm.perm, x);
      if !x.Dir? && InLayout(lay, x) && Parent(x) in vm.names && x != s {
        OtherEntry(lay, mem, vm, s, w, x);
      }
    }
  }

  /** *pte = 0, or a page directory entry set to 0 once its table is empty. */
  lemma StoreAbsent(lay: Layout, mem: Memory, vm: Vm, s: Site)
    requires Represents(lay, mem, vm.names, vm.perm) && Private(vm)
    requires !s.Dir? && InLayout(lay, s) && Parent(s) in vm.names
    requires forall c :: c in vm.names && c != s ==> ParentIn(vm.names - {s}, c)
    ensures Represents(lay, Store(mem, vm.names[Parent(s)], Index(s), ZERO), vm.names - {s}, vm.perm - {s})
  {
    var mem' := Store(mem, vm.names[Parent(s)], Index(s), ZERO);
    var names', perm' := vm.names - {s}, vm.perm - {s};
    forall x: Site ensures Agrees(lay, mem', names', perm', x) {
      assert Agrees(lay, mem, vm.names, vm.perm, x);
      if !x.Dir? && InLayout(lay, x) && Parent(x) in vm.names && x != s {
        OtherEntry(lay, mem, vm, s, ZERO, x);
      }
    }
  }

  /** A frame that is neither a directory nor a table can be overwritten freely. */
  lemma StoreData(lay: Layout, mem: Memory, vm: Vm, f: nat, row: seq<Word>)
    requires Represents(lay, mem, vm.names, vm.perm)
    requires f < |mem| && |row| == lay.entries
    requires forall s :: s in vm.names && vm.names[s] == f ==> s.Page?
    ensures Represents(lay, mem[f := row], vm.names, vm.perm)
  {
    var mem' := mem[f := row];
    forall x: Site ensures Agrees(lay, mem', vm.names, vm.perm, x) {
      assert Agrees(lay, mem, vm.names, vm.perm, x);
    }
  }

  /** A cleared frame becomes a page table: an entry in the directory, and no pages. */
  lemma StoreTable(lay: Layout, mem: Memory, vm: Vm, t: Site, w: Word)
    requires Represents(lay, mem, vm.names, vm.perm) && Private(vm) && Placed(vm)
    requires t.Table? && InLayout(lay, t) && Parent(t) in vm.names && t !in vm.names
    requires w.flags.p && w.flags.w && w.flags.u && w.ppn < |mem| && !Named(vm, w.ppn)
    requires forall j :: 0 <= j < lay.entries ==> mem[w.ppn][j] == ZERO
    ensures Represents(lay, Store(mem, vm.names[Parent(t)], Index(t), w), vm.names[t := w.ppn], vm.perm)
  {
    var mem' := Store(mem, vm.names[Parent(t)], Index(t), w);
    var names', perm' := vm.names[t := w.ppn], vm.perm;
    forall x: Site ensures Agrees(lay, mem', names', perm', x) {
      assert Agrees(lay, mem, vm.names, vm.perm, x);
      if !x.Dir? && InLayout(lay, x) && x != t {
        if Parent(x) in vm.names {
          OtherEntry(lay, mem, vm, t, w, x);
        } else if Parent(x) == t {
          assert mem'[w.ppn] == mem[w.ppn];
        }
      }
    }
  }

  /** A frame whose user half is empty becomes a page directory. */
  lemma StoreDir(lay: Layout, mem: Memory, vm: Vm, e: nat, f: nat)
    requires Represents(lay, mem, vm.names, vm.perm) && Placed(vm)
    requires Dir(e) !in vm.names && f < |mem|
    requires forall i :: 0 <= i < lay.userDirs ==> mem[f][i] == ZERO
    ensures Represents(lay, mem, vm.names[Dir(e) := f], vm.perm)
  {
    var names', perm' := vm.names[Dir(e) := f], vm.perm;
    forall x: Site ensures Agrees(lay, mem, names', perm', x) {
      assert Agrees(lay, mem, vm.names, vm.perm, x);
    }
  }

  /** Forgetting a directory with no tables. */
  lemma DropDir(lay: Layout, mem: Memory, vm: Vm, e: nat)
    requires Represents(lay, mem, vm.names, vm.perm)
    requires forall c :: c in vm.names && c != Dir(e) ==> ParentIn(vm.names - {Dir(e)}, c)
    ensures Represents(lay, mem, vm.names - {Dir(e)}, vm.perm - {Dir(e)})
  {
    var names', perm' := vm.names - {Dir(e)}, vm.perm - {Dir(e)};
    forall x: Site ensures Agrees(lay, mem, names', perm', x) {
      assert Agrees(lay, mem, vm.names, vm.perm, x);
    }
  }
}
