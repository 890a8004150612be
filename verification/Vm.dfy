/** The state that kern/pmap.c maintains, with the two levels of page tables
    flattened. A Site is a place that names a physical frame: an environment's
    env_pgdir, a user-half page directory entry, or a page table entry. */
module Vm {
  import opened Counting

  /** The low 12 bits of a page table entry: present, writable, user, the
      three PTE_AVAIL bits (0x200, PTE_SHARE, PTE_COW) and, as a number, the
      six bits outside PTE_SYSCALL. */
  datatype Flags = Flags(p: bool, w: bool, u: bool, avl: bool, share: bool, cow: bool, hw: nat)

  const NO_FLAGS := Flags(false, false, false, false, false, false, 0)

  /** pp_ref is a uint16_t. */
  const REF_LIMIT: nat := 0x1_0000

  datatype Site =
    | Dir(env: nat)
    | Table(env: nat, pdx: nat)
    | Page(env: nat, pdx: nat, ptx: nat)

  /** names: the frame at each occupied site; perm: the flags of the page
      sites; refs and free: pp_ref and page_free_list; reserved: frames that
      page_init never hands to the allocator. */
  datatype Vm = Vm(
    names: map<Site, nat>,
    perm: map<Site, Flags>,
    refs: seq<nat>,
    free: seq<nat>,
    reserved: set<nat>)

  /** f is a frame the allocator hands out. */
  predicate Managed(vm: Vm, f: nat) {
    f < |vm.refs| && f !in vm.reserved
  }

  ghost predicate Named(vm: Vm, f: nat) {
    exists s :: s in vm.names && vm.names[s] == f
  }

  /** A table hangs off a directory, a page off a table. */
  predicate ParentIn(names: map<Site, nat>, s: Site) {
    match s
    case Dir(_) => true
    case Table(e, _) => Dir(e) in names
    case Page(e, i, _) => Table(e, i) in names
  }

  /** Every name points at an allocatable frame that is off the free list,
      and the two levels hang together. */
  ghost predicate Placed(vm: Vm) {
    && (forall s :: s in vm.names ==>
          Managed(vm, vm.names[s]) && vm.names[s] !in vm.free && ParentIn(vm.names, s))
    && (forall s :: s in vm.perm <==> s in vm.names && s.Page?)
  }

  /** Page directories and page tables have one name each: they are never
      shared between environments and never mapped as user data. */
  ghost predicate Private(vm: Vm) {
    forall s, s' :: s in vm.names && s' in vm.names && s != s' && vm.names[s] == vm.names[s'] ==> s.Page? && s'.Page?
  }

  /** The free list has no duplicates and holds allocatable frames only. */
  ghost predicate FreeListOk(vm: Vm) {
    Distinct(vm.free) && forall f :: f in vm.free ==> Managed(vm, f)
  }

  ghost predicate CountedAt(vm: Vm, f: nat) {
    Managed(vm, f) ==> vm.refs[f] < REF_LIMIT && vm.refs[f] == Count(vm.names, f)
  }

  /** Every managed frame's pp_ref is the number of sites naming it. */
  ghost predicate Counted(vm: Vm) {
    forall f: nat {:trigger CountedAt(vm, f)} :: CountedAt(vm, f)
  }

  ghost predicate Separate(vm: Vm) {
    Placed(vm) && Private(vm) && FreeListOk(vm)
  }

  ghost predicate Inv(vm: Vm) {
    Separate(vm) && Counted(vm)
  }

  /** A frame that is neither free nor named can never be returned. */
  ghost predicate LeakedAt(vm: Vm, f: nat) {
    Managed(vm, f) && f !in vm.free && !Named(vm, f)
  }

  ghost predicate SameLeaks(vm: Vm, vm': Vm) {
    forall f: nat {:trigger LeakedAt(vm', f)} :: LeakedAt(vm, f) <==> LeakedAt(vm', f)
  }

  // ----- specification of the operations -----

  /** page_alloc: take the head of the free list, and set its count to 0. */
  function Take(vm: Vm): Vm
    requires vm.free != [] && vm.free[0] < |vm.refs|
  {
    vm.(free := vm.free[1..], refs := vm.refs[vm.free[0] := 0])
  }

  /** page_free. */
  function Give(vm: Vm, f: nat): Vm {
    vm.(free := [f] + vm.free)
  }

  /** page_decref: lower the 16-bit count, and free the frame at zero. */
  function Decref(vm: Vm, f: nat): Vm
    requires f < |vm.refs|
  {
    var refs := vm.refs[f := (vm.refs[f] + REF_LIMIT - 1) % REF_LIMIT];
    if refs[f] == 0 then Give(vm.(refs := refs), f) else vm.(refs := refs)
  }

  /** Clear a site and drop its reference. */
  function Drop(vm: Vm, s: Site): Vm
    requires s in vm.names && vm.names[s] < |vm.refs|
  {
    Decref(vm, vm.names[s]).(names := vm.names - {s}, perm := vm.perm - {s})
  }

  /** Fill an empty site and add its reference, in 16 bits. */
  function Add(vm: Vm, s: Site, f: nat, perm: Flags): Vm
    requires f < |vm.refs|
  {
    vm.(names := vm.names[s := f],
        perm := if s.Page? then vm.perm[s := perm] else vm.perm,
        refs := vm.refs[f := (vm.refs[f] + 1) % REF_LIMIT])
  }

  predicate NoWrap(vm: Vm, f: nat) {
    f < |vm.refs| ==> vm.refs[f] + 1 < REF_LIMIT
  }

  // ----- Drop -----

  lemma NamedCount(vm: Vm, f: nat)
    ensures Count(vm.names, f) == 0 <==> !Named(vm, f)
  {
    CountZero(vm.names, f);
  }

  lemma DropCountedAt(vm: Vm, s: Site, f: nat)
    requires s in vm.names && Managed(vm, vm.names[s])
    requires CountedAt(vm, f) && CountedAt(vm, vm.names[s])
    ensures CountedAt(Drop(vm, s), f)
    ensures vm.refs[vm.names[s]] > 0
  {
    CountRemove(vm.names, s, f);
    CountRemove(vm.names, s, vm.names[s]);
  }

  lemma DropFreed(vm: Vm, s: Site)
    requires s in vm.names && Managed(vm, vm.names[s]) && CountedAt(vm, vm.names[s])
    ensures Drop(vm, s).refs[vm.names[s]] == 0 <==> !Named(Drop(vm, s), vm.names[s])
  {
    DropCountedAt(vm, s, vm.names[s]);
    NamedCount(Drop(vm, s), vm.names[s]);
  }

  lemma DropPlaced(vm: Vm, s: Site)
    requires Placed(vm)
    requires s in vm.names && CountedAt(vm, vm.names[s])
    requires forall c :: c in vm.names && c != s ==> ParentIn(vm.names - {s}, c)
    ensures Placed(Drop(vm, s))
  {
    DropFreed(vm, s);
    var u, p := Drop(vm, s), vm.names[s];
    assert forall x :: x in u.free ==> x in vm.free || (x == p && u.refs[p] == 0);
    forall c | c in u.names ensures u.names[c] !in u.free {
      assert u.names[c] == vm.names[c];
      assert Named(u, u.names[c]);
    }
  }

  lemma DropFreeList(vm: Vm, s: Site)
    requires FreeListOk(vm)
    requires s in vm.names && Managed(vm, vm.names[s]) && vm.names[s] !in vm.free
    ensures FreeListOk(Drop(vm, s))
  {
  }

  lemma DropLeaks(vm: Vm, s: Site)
    requires s in vm.names && Managed(vm, vm.names[s]) && CountedAt(vm, vm.names[s])
    ensures SameLeaks(vm, Drop(vm, s))
  {
    var u, p := Drop(vm, s), vm.names[s];
    DropFreed(vm, s);
    forall f: nat ensures LeakedAt(vm, f) <==> LeakedAt(u, f) {
      assert f in u.free <==> f in vm.free || (f == p && u.refs[p] == 0);
      if f != p {
        assert Named(vm, f) ==> Named(u, f) by {
          if x :| x in vm.names && vm.names[x] == f {
            assert x in u.names && u.names[x] == f;
          }
        }
      }
    }
  }

  /** Clearing a site that nothing hangs off keeps the invariant, and loses no frame. */
  lemma DropKeepsInv(vm: Vm, s: Site)
    requires Inv(vm)
    requires s in vm.names
    requires forall c :: c in vm.names && c != s ==> ParentIn(vm.names - {s}, c)
    ensures Inv(Drop(vm, s))
    ensures SameLeaks(vm, Drop(vm, s))
  {
    assert CountedAt(vm, vm.names[s]);
    forall f: nat ensures CountedAt(Drop(vm, s), f) {
      assert CountedAt(vm, f);
      DropCountedAt(vm, s, f);
    }
    DropPlaced(vm, s);
    DropFreeList(vm, s);
    DropLeaks(vm, s);
  }

  // ----- Take, Give, Add -----

  lemma TakeKeepsInv(vm: Vm)
    requires Inv(vm)
    requires vm.free != []
    ensures vm.free[0] in vm.free && Managed(vm, vm.free[0]) && !Named(vm, vm.free[0])
    ensures vm.refs[vm.free[0]] == 0
    ensures Inv(Take(vm))
    ensures vm.free[0] !in Take(vm).free && LeakedAt(Take(vm), vm.free[0])
    ensures forall f: nat {:trigger LeakedAt(Take(vm), f)} ::
              LeakedAt(Take(vm), f) <==> LeakedAt(vm, f) || f == vm.free[0]
  {
    var h := vm.free[0];
    assert h in vm.free;
    assert Managed(vm, h) && !Named(vm, h);
    var u := Take(vm);
    assert CountedAt(vm, h);
    NamedCount(vm, h);
    assert u.refs == vm.refs;
    forall f: nat ensures CountedAt(u, f) {
      assert CountedAt(vm, f);
    }
    assert forall f :: f in vm.free <==> f == h || f in u.free;
    forall f: nat ensures LeakedAt(u, f) <==> LeakedAt(vm, f) || f == h {
      assert Named(u, f) <==> Named(vm, f);
    }
  }

  /** Freeing a frame twice puts it on the list twice. */
  lemma GiveFreeList(vm: Vm, f: nat)
    requires FreeListOk(vm) && Managed(vm, f)
    ensures FreeListOk(Give(vm, f)) <==> f !in vm.free
    ensures forall x :: x in Give(vm, f).free <==> x == f || x in vm.free
  {
    var u := Give(vm, f);
    assert forall x :: x in u.free <==> x == f || x in vm.free;
    if f in vm.free {
      var i :| 0 <= i < |vm.free| && vm.free[i] == f;
      assert u.free[0] == f && u.free[i + 1] == f;
    }
  }

  /** page_free has no double-free check: it keeps the invariant exactly when
      the frame is not on the list already. */
  lemma GiveInvIff(vm: Vm, f: nat)
    requires Inv(vm)
    requires Managed(vm, f) && vm.refs[f] == 0
    ensures Inv(Give(vm, f)) <==> f !in vm.free
    ensures LeakedAt(vm, f) <==> f !in vm.free
    ensures forall g: nat {:trigger LeakedAt(Give(vm, f), g)} :: LeakedAt(Give(vm, f), g) <==> LeakedAt(vm, g) && g != f
  {
    var u := Give(vm, f);
    assert CountedAt(vm, f);
    NamedCount(vm, f);
    GiveFreeList(vm, f);
    forall g: nat ensures CountedAt(u, g) {
      assert CountedAt(vm, g);
    }
    forall g: nat ensures LeakedAt(u, g) <==> LeakedAt(vm, g) && g != f {
      assert Named(u, g) <==> Named(vm, g);
    }
  }

  lemma AddCountedAt(vm: Vm, s: Site, f: nat, perm: Flags, g: nat)
    requires s !in vm.names && Managed(vm, f)
    requires CountedAt(vm, f) && CountedAt(vm, g)
    ensures g != f || NoWrap(vm, f) ==> CountedAt(Add(vm, s, f, perm), g)
    ensures g == f && !NoWrap(vm, f) ==> !CountedAt(Add(vm, s, f, perm), f)
  {
    CountInsert(vm.names, s, f, g);
  }

  lemma AddPlaced(vm: Vm, s: Site, f: nat, perm: Flags)
    requires Placed(vm)
    requires s !in vm.names && Managed(vm, f) && f !in vm.free && ParentIn(vm.names, s)
    ensures Placed(Add(vm, s, f, perm))
  {
  }

  /** May f be named at s, given who names it already? */
  ghost predicate MayName(vm: Vm, s: Site, f: nat) {
    && Managed(vm, f) && f !in vm.free && ParentIn(vm.names, s)
    && forall s' :: s' in vm.names && vm.names[s'] == f ==> s.Page? && s'.Page?
  }

  /** Naming a frame once more keeps the invariant exactly when the 16-bit
      count does not wrap. */
  lemma AddInvIff(vm: Vm, s: Site, f: nat, perm: Flags)
    requires Inv(vm)
    requires s !in vm.names && MayName(vm, s, f)
    ensures Inv(Add(vm, s, f, perm)) <==> NoWrap(vm, f)
    ensures forall g: nat {:trigger LeakedAt(Add(vm, s, f, perm), g)} ::
              LeakedAt(Add(vm, s, f, perm), g) <==> LeakedAt(vm, g) && g != f
  {
    var u := Add(vm, s, f, perm);
    assert CountedAt(vm, f);
    forall g: nat ensures g != f || NoWrap(vm, f) ==> CountedAt(u, g) {
      assert CountedAt(vm, g);
      AddCountedAt(vm, s, f, perm, g);
    }
    AddCountedAt(vm, s, f, perm, f);
    AddPlaced(vm, s, f, perm);
    assert NoWrap(vm, f) ==> Inv(u);
    forall g: nat ensures LeakedAt(u, g) <==> LeakedAt(vm, g) && g != f {
      AddNamed(vm, s, f, perm, g);
    }
  }

  lemma AddNamed(vm: Vm, s: Site, f: nat, perm: Flags, g: nat)
    requires s !in vm.names && f < |vm.refs|
    ensures Named(Add(vm, s, f, perm), g) <==> Named(vm, g) || g == f
  {
    var u := Add(vm, s, f, perm);
    assert s in u.names && u.names[s] == f;
    if x :| x in vm.names && vm.names[x] == g {
      assert x in u.names && u.names[x] == g;
    }
  }

  // ----- page_insert and page_remove on the flat map -----

  datatype Mapping = Mapping(frame: nat, flags: Flags)

  /** The flat map from virtual pages to (frame, flags) that the tables implement. The value
      outside the range is spelled out, because the verifier takes all empty maps to be one map. */
  ghost function Flat(vm: Vm): map<Site, Mapping> {
    map s | s in vm.names && s in vm.perm && s.Page? ::
      if s in vm.names && s in vm.perm && s.Page? then Mapping(vm.names[s], vm.perm[s]) else Mapping(0, NO_FLAGS)
  }

  /** page_remove. */
  function Remove(vm: Vm, s: Site): Vm
    requires s in vm.names ==> vm.names[s] < |vm.refs|
  {
    if s in vm.names then Drop(vm, s) else vm
  }

  function TableOf(s: Site): Site
    requires s.Page?
  {
    Table(s.env, s.pdx)
  }

  /** pgdir_walk(create = 1) cannot get a page for the missing table. */
  predicate WalkFails(vm: Vm, s: Site)
    requires s.Page?
  {
    TableOf(s) !in vm.names && vm.free == []
  }

  function Walk(vm: Vm, s: Site): Vm
    requires s.Page? && !WalkFails(vm, s)
    requires vm.free != [] ==> vm.free[0] < |vm.refs|
  {
    if TableOf(s) in vm.names then vm else Add(Take(vm), TableOf(s), vm.free[0], NO_FLAGS)
  }

  /** page_insert after the walk: same frame, other frame, or nothing mapped before. */
  function Map(vm: Vm, s: Site, f: nat, perm: Flags): Vm
    requires s.Page? && f < |vm.refs|
    requires s in vm.names ==> vm.names[s] < |vm.refs|
  {
    if s in vm.names && vm.names[s] == f then vm.(perm := vm.perm[s := perm.(p := true)])
    else Add(Remove(vm, s), s, f, perm.(p := true))
  }

  /** page_insert. */
  function Insert(vm: Vm, s: Site, f: nat, perm: Flags): Vm
    requires s.Page? && f < |vm.refs| && Inv(vm)
  {
    if WalkFails(vm, s) then vm
    else
      assert vm.free != [] ==> vm.free[0] in vm.free;
      Map(Walk(vm, s), s, f, perm)
  }

  /** f may be mapped as a user page. */
  ghost predicate UserFrame(vm: Vm, f: nat) {
    Managed(vm, f) && f !in vm.free && forall s :: s in vm.names && vm.names[s] == f ==> s.Page?
  }

  /** Giving the head of the free list to a directory or table keeps the invariant... */
  lemma NewTableKeepsInv(vm: Vm, t: Site)
    requires Inv(vm) && vm.free != [] && !t.Page? && t !in vm.names && ParentIn(vm.names, t)
    ensures vm.free[0] < |vm.refs|
    ensures var u := Add(Take(vm), t, vm.free[0], NO_FLAGS); Inv(u) && SameLeaks(vm, u)
  {
    TakeKeepsInv(vm);
    var v, h := Take(vm), vm.free[0];
    assert !Named(v, h);
    assert MayName(v, t, h);
    AddInvIff(v, t, h, NO_FLAGS);
  }

  /** ... and is invisible in the flat map and to user frames. */
  lemma NewTableFlat(vm: Vm, t: Site, f: nat)
    requires vm.free != [] && vm.free[0] < |vm.refs| && t !in vm.names && !t.Page?
    requires UserFrame(vm, f)
    ensures var u := Add(Take(vm), t, vm.free[0], NO_FLAGS);
      Flat(u) == Flat(vm) && UserFrame(u, f) && u.refs[f] == vm.refs[f]
  {
    assert vm.free[0] in vm.free;
  }

  lemma DropFlat(vm: Vm, s: Site, f: nat)
    requires s in vm.names && vm.names[s] < |vm.refs| && vm.names[s] != f
    requires UserFrame(vm, f)
    ensures var u := Drop(vm, s);
      Flat(u) == Flat(vm) - {s} && UserFrame(u, f) && u.refs[f] == vm.refs[f]
  {
  }

  lemma MapFlat(vm: Vm, s: Site, f: nat, perm: Flags)
    requires s.Page? && f < |vm.refs|
    requires s in vm.names ==> vm.names[s] < |vm.refs|
    requires s in vm.names <==> s in vm.perm
    ensures Flat(Map(vm, s, f, perm)) == Flat(vm)[s := Mapping(f, perm.(p := true))]
  {
  }

  lemma PermKeepsInv(vm: Vm, s: Site, perm: Flags)
    requires Inv(vm) && s in vm.names && s.Page?
    ensures Inv(vm.(perm := vm.perm[s := perm])) && SameLeaks(vm, vm.(perm := vm.perm[s := perm]))
  {
    var u := vm.(perm := vm.perm[s := perm]);
    forall f: nat ensures CountedAt(u, f) {
      assert CountedAt(vm, f);
    }
    SameNamesSameLeaks(vm, u);
    assert Placed(u);
    assert Private(u);
  }

  lemma SameNamesSameLeaks(vm: Vm, u: Vm)
    requires u.names == vm.names && u.refs == vm.refs && u.free == vm.free && u.reserved == vm.reserved
    ensures SameLeaks(vm, u)
  {
    forall f: nat ensures LeakedAt(vm, f) <==> LeakedAt(u, f) {
      assert Named(u, f) <==> Named(vm, f);
    }
  }

  lemma LeafHasNoChild(vm: Vm, s: Site)
    requires Placed(vm) && s.Page?
    ensures forall c :: c in vm.names && c != s ==> ParentIn(vm.names - {s}, c)
  {
  }

  lemma MapInvIff(vm: Vm, s: Site, f: nat, perm: Flags)
    requires Inv(vm) && s.Page? && TableOf(s) in vm.names && UserFrame(vm, f)
    requires s in vm.names ==> vm.names[s] < |vm.refs|
    ensures Inv(Map(vm, s, f, perm)) <==> (s in vm.names && vm.names[s] == f) || NoWrap(vm, f)
    ensures forall g: nat {:trigger LeakedAt(Map(vm, s, f, perm), g)} ::
              LeakedAt(Map(vm, s, f, perm), g) <==> LeakedAt(vm, g) && g != f
  {
    if s in vm.names && vm.names[s] == f {
      PermKeepsInv(vm, s, perm.(p := true));
      assert Named(vm, f);
    } else if s in vm.names {
      LeafHasNoChild(vm, s);
      DropKeepsInv(vm, s);
      DropFlat(vm, s, f);
      AddInvIff(Drop(vm, s), s, f, perm.(p := true));
    } else {
      AddInvIff(vm, s, f, perm.(p := true));
    }
  }

  /** page_insert, when its walk succeeds, is an update of the flat map at one
      page and of nothing else; it keeps every reference count exact if and
      only if it re-inserts the same frame or the count does not wrap. */
  lemma InsertIsUpdate(vm: Vm, s: Site, f: nat, perm: Flags)
    requires Inv(vm) && s.Page? && Dir(s.env) in vm.names && UserFrame(vm, f)
    requires !WalkFails(vm, s)
    ensures Flat(Insert(vm, s, f, perm)) == Flat(vm)[s := Mapping(f, perm.(p := true))]
    ensures Inv(Insert(vm, s, f, perm)) <==> (s in vm.names && vm.names[s] == f) || NoWrap(vm, f)
    ensures forall g: nat {:trigger LeakedAt(Insert(vm, s, f, perm), g)} ::
              LeakedAt(Insert(vm, s, f, perm), g) <==> LeakedAt(vm, g) && g != f
  {
    var t := TableOf(s);
    assert vm.free != [] ==> vm.free[0] in vm.free;
    var w := Walk(vm, s);
    if t !in vm.names {
      NewTableKeepsInv(vm, t);
      NewTableFlat(vm, t, f);
    }
    assert s in w.names ==> Managed(w, w.names[s]);
    MapFlat(w, s, f, perm);
    MapInvIff(w, s, f, perm);
    forall g: nat ensures LeakedAt(w, g) <==> LeakedAt(vm, g) {
    }
  }

  ghost predicate SameDirs(vm: Vm, vm': Vm) {
    forall e: nat :: Dir(e) in vm.names <==> Dir(e) in vm'.names
  }

  ghost predicate KeepsUsers(vm: Vm, vm': Vm) {
    forall f: nat :: UserFrame(vm, f) ==> UserFrame(vm', f)
  }

  lemma WalkKeepsUsers(vm: Vm, s: Site)
    requires Inv(vm) && s.Page? && !WalkFails(vm, s)
    ensures vm.free != [] ==> vm.free[0] < |vm.refs|
    ensures SameDirs(vm, Walk(vm, s)) && KeepsUsers(vm, Walk(vm, s))
    ensures forall x :: x in Walk(vm, s).names && x.Page? ==> x in vm.names && vm.names[x] == Walk(vm, s).names[x]
  {
    assert vm.free != [] ==> vm.free[0] in vm.free;
  }

  lemma MapKeepsUsers(vm: Vm, s: Site, f: nat, perm: Flags)
    requires s.Page? && f < |vm.refs| && (s in vm.names ==> vm.names[s] < |vm.refs|)
    ensures SameDirs(vm, Map(vm, s, f, perm))
    ensures s !in vm.names || vm.names[s] == f ==> KeepsUsers(vm, Map(vm, s, f, perm))
  {
  }

  /** Inserting into an empty slot, or the same frame again, frees nothing. */
  lemma InsertKeepsUsers(vm: Vm, s: Site, f: nat, perm: Flags)
    requires Inv(vm) && s.Page? && Dir(s.env) in vm.names && UserFrame(vm, f)
    ensures SameDirs(vm, Insert(vm, s, f, perm))
    ensures s !in vm.names || vm.names[s] == f ==> KeepsUsers(vm, Insert(vm, s, f, perm))
  {
    if !WalkFails(vm, s) {
      WalkKeepsUsers(vm, s);
      MapKeepsUsers(Walk(vm, s), s, f, perm);
    }
  }
}
