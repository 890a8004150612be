/** fork()'s loop over page numbers [UTEXT >> PTXSHIFT, USTACKTOP >> PTXSHIFT). */
module ForkLoop {
  import opened Arith
  import opened Counting
  import opened Vm
  import opened PageTables
  import opened VmRuns
  import opened Pmap
  import opened Cow
  import opened Fork

  /** s is a page whose number lies in [lo, hi), with n entries to a table. */
  predicate InRange(n: nat, s: Site, lo: nat, hi: nat) {
    s.Page? && s.ptx < n && lo <= s.pdx * n + s.ptx < hi
  }

  /** Page number pn has one pair of indices. */
  lemma NumUnique(n: nat, i: nat, j: nat, pn: nat)
    requires n > 0 && j < n
    ensures i * n + j == pn <==> i == pn / n && j == pn % n
  {
    if i * n + j == pn {
      DivUnique(n, i, j);
    }
  }

  lemma DivBound(n: nat, u: nat, pn: nat)
    requires n > 0 && pn < u * n
    ensures pn / n < u
  {
    assert pn == (pn / n) * n + pn % n;
    if pn / n >= u {
      MulMono(n, u, pn / n);
    }
  }

  function PageAt(e: nat, n: nat, pn: nat): Site
    requires n > 0
  {
    Page(e, pn / n, pn % n)
  }

  /** The mappings when the loop of fork() stands at hi. */
  ghost function Forked(flat: map<Site, Mapping>, e: nat, c: nat, n: nat, lo: nat, hi: nat): (r: map<Site, Mapping>)
    requires n > 0
    ensures flat.Keys <= r.Keys
    decreases hi
  {
    if hi <= lo then flat
    else
      var now := Forked(flat, e, c, n, lo, hi - 1);
      if PageAt(e, n, hi - 1) in flat then DupPage(now, PageAt(e, n, hi - 1), PageAt(c, n, hi - 1)) else now
  }

  ghost predicate NoPagesOf(flat: map<Site, Mapping>, c: nat) {
    forall s :: s in flat ==> s.Page? && s.env != c
  }

  lemma RangeStep(n: nat, s: Site, lo: nat, pn: nat)
    requires n > 0 && lo <= pn
    ensures InRange(n, s, lo, pn + 1) <==> InRange(n, s, lo, pn) || (s.Page? && s.pdx == pn / n && s.ptx == pn % n)
    ensures s.Page? && s.pdx == pn / n && s.ptx == pn % n ==> !InRange(n, s, lo, pn)
  {
    if s.Page? && s.ptx < n {
      NumUnique(n, s.pdx, s.ptx, pn);
    }
  }

  /** Page by page: every mapped page of parent e in [lo, hi) is also mapped in
      child c, with duppage's flags on both sides; every other page is as before. */
  lemma {:induction false} ForkedAt(flat: map<Site, Mapping>, e: nat, c: nat, n: nat, lo: nat, hi: nat, s: Site)
    requires n > 0 && e != c && NoPagesOf(flat, c)
    ensures var r := Forked(flat, e, c, n, lo, hi);
      if InRange(n, s, lo, hi) && s.env == c then
        && (s in r <==> Page(e, s.pdx, s.ptx) in flat)
        && (s in r ==> r[s] == Mapping(flat[Page(e, s.pdx, s.ptx)].frame, ChildFlags(flat[Page(e, s.pdx, s.ptx)].flags)))
      else if InRange(n, s, lo, hi) && s.env == e then
        && (s in r <==> s in flat)
        && (s in r ==> r[s] == Mapping(flat[s].frame, ParentFlags(flat[s].flags)))
      else (s in r <==> s in flat) && (s in r ==> r[s] == flat[s])
    decreases hi
  {
    if lo < hi {
      RangeStep(n, s, lo, hi - 1);
      ForkedAt(flat, e, c, n, lo, hi - 1, s);
      ForkedAt(flat, e, c, n, lo, hi - 1, PageAt(e, n, hi - 1));
      RangeStep(n, PageAt(e, n, hi - 1), lo, hi - 1);
    }
  }

  // ----- the 16-bit hypothesis for a whole fork -----

  ghost function FrameOf(flat: map<Site, Mapping>): map<Site, nat> {
    map s | s in flat :: if s in flat then flat[s].frame else 0
  }

  /** The parent's pages that the loop has still to duplicate. */
  ghost function Pending(flat: map<Site, Mapping>, e: nat, n: nat, pn: nat, hi: nat): map<Site, nat> {
    FrameOf(flat) - set s | s in flat && !(s.env == e && InRange(n, s, pn, hi))
  }

  ghost predicate FitsAt(flat: map<Site, Mapping>, pending: map<Site, nat>, f: nat) {
    Count(FrameOf(flat), f) + Count(pending, f) < REF_LIMIT
  }

  /** Each frame's references, plus one for each pending duplicate, fit 16 bits. */
  ghost predicate ForkFits(flat: map<Site, Mapping>, pending: map<Site, nat>) {
    forall f: nat {:trigger FitsAt(flat, pending, f)} :: FitsAt(flat, pending, f)
  }

  lemma PendingStep(flat: map<Site, Mapping>, e: nat, n: nat, pn: nat, hi: nat)
    requires n > 0 && pn < hi && forall s :: s in flat ==> s.Page?
    ensures var a := PageAt(e, n, pn);
      && a !in Pending(flat, e, n, pn + 1, hi)
      && Pending(flat, e, n, pn, hi) ==
         if a in flat then Pending(flat, e, n, pn + 1, hi)[a := flat[a].frame] else Pending(flat, e, n, pn + 1, hi)
  {
    var a := PageAt(e, n, pn);
    NumUnique(n, a.pdx, a.ptx, pn);
    forall s | s in flat && s.env == e && s.ptx < n
      ensures s.pdx * n + s.ptx == pn <==> s == a
    {
      NumUnique(n, s.pdx, s.ptx, pn);
    }
  }

  lemma DupFits(flat: map<Site, Mapping>, a: Site, b: Site, rest: map<Site, nat>)
    requires a in flat && b !in flat && a !in rest
    requires ForkFits(flat, rest[a := flat[a].frame])
    ensures ForkFits(DupPage(flat, a, b), rest)
    ensures Count(FrameOf(flat), flat[a].frame) + 1 < REF_LIMIT
  {
    var pending := rest[a := flat[a].frame];
    assert FrameOf(DupPage(flat, a, b)) == FrameOf(flat)[b := flat[a].frame];
    forall f: nat ensures FitsAt(DupPage(flat, a, b), rest, f) {
      assert FitsAt(flat, pending, f);
      CountInsert(FrameOf(flat), b, flat[a].frame, f);
      CountInsert(rest, a, flat[a].frame, f);
    }
    assert FitsAt(flat, pending, flat[a].frame);
    CountInsert(rest, a, flat[a].frame, flat[a].frame);
  }

  lemma SameSites(vm: Vm, f: nat)
    requires Placed(vm) && forall s :: s in vm.names && vm.names[s] == f ==> s.Page?
    ensures Count(vm.names, f) == Count(FrameOf(Flat(vm)), f)
  {
    assert Sites(vm.names, f) == Sites(FrameOf(Flat(vm)), f);
  }

  lemma PageRefs(vm: Vm, s: Site)
    requires Inv(vm) && s in Flat(vm)
    ensures Flat(vm)[s].frame < |vm.refs|
    ensures vm.refs[Flat(vm)[s].frame] == Count(FrameOf(Flat(vm)), Flat(vm)[s].frame)
  {
    PageFrameIsUser(vm, s);
    assert CountedAt(vm, vm.names[s]);
    SameSites(vm, vm.names[s]);
  }

  /** What one turn may rely on, and what it must leave behind. */
  lemma TurnFacts(vm: Vm, flat: map<Site, Mapping>, e: nat, c: nat, n: nat, lo: nat, pn: nat, hi: nat)
    requires Inv(vm) && n > 0 && lo <= pn < hi && e != c && NoPagesOf(flat, c)
    requires Flat(vm) == Forked(flat, e, c, n, lo, pn) && ForkFits(Flat(vm), Pending(flat, e, n, pn, hi))
    ensures var a, b, next := PageAt(e, n, pn), PageAt(c, n, pn), Forked(flat, e, c, n, lo, pn + 1);
      && b !in Flat(vm) && ForkFits(next, Pending(flat, e, n, pn + 1, hi))
      && (a in Flat(vm) ==> NoWrap(vm, Flat(vm)[a].frame) && next == DupPage(Flat(vm), a, b))
      && (a !in Flat(vm) ==> next == Flat(vm))
  {
    var a, b := PageAt(e, n, pn), PageAt(c, n, pn);
    ForkedAt(flat, e, c, n, lo, pn, a);
    ForkedAt(flat, e, c, n, lo, pn, b);
    RangeStep(n, a, lo, pn);
    RangeStep(n, b, lo, pn);
    PendingStep(flat, e, n, pn, hi);
    if a in Flat(vm) {
      DupFits(Flat(vm), a, b, Pending(flat, e, n, pn + 1, hi));
      PageRefs(vm, a);
    }
  }

  // ----- the loop -----

  /** A fork in progress: the state it started from, parent, child and page range. */
  datatype Job = Job(vm0: Vm, mem0: Memory, e: nat, c: nat, lo: nat, hi: nat)

  ghost predicate LoopInv(k: PhysMem, job: Job, pn: nat)
    reads k
  {
    match job
    case Job(vm0, mem0, e, c, lo, hi) =>
      && k.Valid() && Dir(e) in k.vm.names && Dir(c) in k.vm.names && e != c && NoPagesOf(Flat(vm0), c)
      && 0 < k.lay.entries && lo <= pn <= hi <= k.lay.userDirs * k.lay.entries
      && Kept(Flat(vm0), mem0, k.mem)
      && Flat(k.vm) == Forked(Flat(vm0), e, c, k.lay.entries, lo, pn)
      && ForkFits(Flat(k.vm), Pending(Flat(vm0), e, k.lay.entries, pn, hi))
  }

  /** One turn: skip an absent page, duppage a present one. */
  method DupNumber(k: PhysMem, e: nat, c: nat, pn: nat, ghost job: Job) returns (ok: bool)
    requires LoopInv(k, job, pn) && pn < job.hi && e == job.e && c == job.c
    modifies k`mem, k`refs, k`link, k`freeHead, k`vm
    ensures k.Valid()
    ensures if ok then LoopInv(k, job, pn + 1) else k.vm.free == []
  {
    var i, j := pn / k.lay.entries, pn % k.lay.entries;
    DivBound(k.lay.entries, k.lay.userDirs, pn);
    TurnFacts(k.vm, Flat(job.vm0), e, c, k.lay.entries, job.lo, pn, job.hi);
    var pte := k.PageLookup(e, i, j);
    if pte == Fault {
      return true;
    }
    ghost var mem1 := k.mem;
    ok := Duppage(k, e, c, i, j);
    if ok {
      ForkedKept(Flat(job.vm0), e, c, k.lay.entries, job.lo, pn, job.mem0, mem1, k.mem);
    }
  }

  /** fork()'s loop. On success the child has every page the parent had in
      [lo, hi), with duppage's flags; nobody else's mapping changed; and no
      page's contents changed. */
  method ForkPages(k: PhysMem, e: nat, c: nat, lo: nat, hi: nat, ghost job: Job) returns (ok: bool)
    requires LoopInv(k, job, lo) && lo <= hi && job.e == e && job.c == c && job.hi == hi
    modifies k`mem, k`refs, k`link, k`freeHead, k`vm
    ensures k.Valid()
    ensures if ok then LoopInv(k, job, hi) else k.vm.free == []
  {
    for pn := lo to hi
      invariant LoopInv(k, job, pn)
    {
      ok := DupNumber(k, e, c, pn, job);
      if !ok {
        return;
      }
    }
    return true;
  }

  /** fork() for a child fresh from sys_exofork, whose exception stack page is
      (ui, uj): the loop, then sys_page_alloc of that page. */
  method ForkChild(k: PhysMem, e: nat, c: nat, lo: nat, hi: nat, ui: nat, uj: nat) returns (ok: bool)
    requires k.Valid() && Dir(e) in k.vm.names && Dir(c) in k.vm.names && e != c && NoPagesOf(Flat(k.vm), c)
    requires lo <= hi <= k.lay.userDirs * k.lay.entries
    requires ui < k.lay.userDirs && uj < k.lay.entries && !InRange(k.lay.entries, Page(c, ui, uj), lo, hi)
    requires ForkFits(Flat(k.vm), Pending(Flat(k.vm), e, k.lay.entries, lo, hi))
    modifies k`mem, k`refs, k`link, k`freeHead, k`vm
    ensures k.Valid()
    ensures ok ==> Flat(k.vm) - {Page(c, ui, uj)} == Forked(Flat(old(k.vm)), e, c, k.lay.entries, lo, hi)
    ensures ok ==> Kept(Flat(old(k.vm)), old(k.mem), k.mem)
    ensures ok ==> OwnCleared(k.lay, k.vm, k.mem, Page(c, ui, uj))
    ensures !ok ==> |k.vm.free| <= 1
  {
    ghost var job := Job(k.vm, k.mem, e, c, lo, hi);
    ok := ForkPages(k, e, c, lo, hi, job);
    if !ok {
      return;
    }
    ok := ForkStack(k, c, ui, uj, job);
  }

  /** sys_page_alloc(envid, UXSTACKTOP - PGSIZE), when the loop is done. */
  method ForkStack(k: PhysMem, c: nat, ui: nat, uj: nat, ghost job: Job) returns (ok: bool)
    requires LoopInv(k, job, job.hi) && c == job.c
    requires ui < k.lay.userDirs && uj < k.lay.entries && !InRange(k.lay.entries, Page(c, ui, uj), job.lo, job.hi)
    modifies k`mem, k`refs, k`link, k`freeHead, k`vm
    ensures k.Valid()
    ensures Flat(k.vm) - {Page(c, ui, uj)} == Forked(Flat(job.vm0), job.e, c, k.lay.entries, job.lo, job.hi)
    ensures Kept(Flat(job.vm0), job.mem0, k.mem)
    ensures if ok then OwnCleared(k.lay, k.vm, k.mem, Page(c, ui, uj)) else |k.vm.free| <= 1
  {
    ghost var mem1, flat1 := k.mem, Flat(k.vm);
    ForkedAt(Flat(job.vm0), job.e, c, k.lay.entries, job.lo, job.hi, Page(c, ui, uj));
    assert Page(c, ui, uj) !in flat1;
    assert flat1 - {Page(c, ui, uj)} == flat1;
    var r := AllocSelf(k, c, ui, uj);
    assert Flat(k.vm) - {Page(c, ui, uj)} == flat1;
    ForkedKept(Flat(job.vm0), job.e, c, k.lay.entries, job.lo, job.hi, job.mem0, mem1, k.mem);
    return r == 0;
  }

  lemma ForkedKept(flat: map<Site, Mapping>, e: nat, c: nat, n: nat, lo: nat, hi: nat, mem0: Memory, mem1: Memory, mem2: Memory)
    requires n > 0 && e != c && NoPagesOf(flat, c)
    requires Kept(flat, mem0, mem1) && Kept(Forked(flat, e, c, n, lo, hi), mem1, mem2)
    ensures Kept(flat, mem0, mem2)
  {
    var flat' := Forked(flat, e, c, n, lo, hi);
    forall s | s in flat && flat[s].frame < |mem0| ensures mem2[flat[s].frame] == mem0[flat[s].frame] {
      ForkedAt(flat, e, c, n, lo, hi, s);
      assert s in flat' && flat'[s].frame == flat[s].frame;
    }
  }

  // ----- what the loop's result means -----

  /** After fork, parent and child see in each duplicated page what the parent
      saw before; a page private before is writable in neither (so the next
      store copies), and a shared page is the same frame in both. */
  lemma ForkViews(flat: map<Site, Mapping>, data: seq<Row>, e: nat, c: nat, n: nat, lo: nat, hi: nat, i: nat, j: nat)
    requires LazyInv(Lazy(flat, data)) && e != c && NoPagesOf(flat, c)
    requires n > 0 && InRange(n, Page(e, i, j), lo, hi)
    ensures var l, l' := Lazy(flat, data), Lazy(Forked(flat, e, c, n, lo, hi), data);
      var a, b := Page(e, i, j), Page(c, i, j);
      && (a in l.page <==> a in l'.page) && (a in l.page <==> b in l'.page)
      && (a in l.page ==>
            && l'.page[a].frame == l.page[a].frame && l'.page[b].frame == l.page[a].frame
            && View(l', a) == View(l, a) && View(l', b) == View(l, a)
            && (l.page[a].flags.share ==> l'.page[a] == l.page[a] && l'.page[b].flags.share)
            && (!l.page[a].flags.share ==> !l'.page[a].flags.w && !l'.page[b].flags.w)
            && (!l.page[a].flags.share && (l.page[a].flags.w || l.page[a].flags.cow) ==>
                  l'.page[a].flags.cow && l'.page[b].flags.cow))
  {
    ForkedAt(flat, e, c, n, lo, hi, Page(e, i, j));
    ForkedAt(flat, e, c, n, lo, hi, Page(c, i, j));
  }

  /** The whole loop keeps the copy-on-write invariant. */
  lemma {:induction false} ForkKeepsLazyInv(flat: map<Site, Mapping>, data: seq<Row>, e: nat, c: nat, n: nat, lo: nat, hi: nat)
    requires LazyInv(Lazy(flat, data)) && n > 0 && lo <= hi && e != c && NoPagesOf(flat, c)
    ensures LazyInv(Lazy(Forked(flat, e, c, n, lo, hi), data))
    decreases hi
  {
    if lo < hi {
      ForkKeepsLazyInv(flat, data, e, c, n, lo, hi - 1);
      var a, b := PageAt(e, n, hi - 1), PageAt(c, n, hi - 1);
      if a in flat {
        DupKeepsLazyInv(Lazy(Forked(flat, e, c, n, lo, hi - 1), data), a, b);
      }
    }
  }
}
