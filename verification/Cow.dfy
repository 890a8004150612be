/** Copy-on-write fork (lib/fork.c) against eager copying (user/dumbfork.c),
    over every interleaving of stores, page duplications, allocations and unmaps. */
module Cow {
  import opened Vm
  import opened PageTables

  type Row = seq<Word>

  /** What lib/fork.c works on: the mappings of all environments, and the frames' contents. */
  datatype Lazy = Lazy(page: map<Site, Mapping>, data: seq<Row>)

  const PUW := NO_FLAGS.(p := true, u := true, w := true)
  const PU := NO_FLAGS.(p := true, u := true)
  const PUCOW := NO_FLAGS.(p := true, u := true, cow := true)

  /** Frames are equally long, every mapping is a user mapping, none is both shared and copy-on-write,
      and a frame mapped twice is mapped PTE_SHARE both times or writable neither time. */
  ghost predicate LazyInv(l: Lazy) {
    && (forall f :: 0 <= f < |l.data| ==> |l.data[f]| == |l.data[0]|)
    && (forall s :: s in l.page ==>
          l.page[s].frame < |l.data| && l.page[s].flags.u && !(l.page[s].flags.share && l.page[s].flags.cow))
    && (forall s, s' :: s in l.page && s' in l.page && s != s' && l.page[s].frame == l.page[s'].frame ==>
          || (l.page[s].flags.share && l.page[s'].flags.share)
          || (!l.page[s].flags.w && !l.page[s'].flags.w))
  }

  /** What a reader of page s sees. */
  function View(l: Lazy, s: Site): Row
    requires s in l.page && l.page[s].frame < |l.data|
  {
    l.data[l.page[s].frame]
  }

  ghost predicate Fresh(l: Lazy, f: nat) {
    f < |l.data| && forall s :: s in l.page ==> l.page[s].frame != f
  }

  /** spare is the frame the allocator hands out, when the step needs one. */
  datatype Step =
    | Write(s: Site, at: nat, w: Word, spare: nat)
    | Dup(src: Site, dst: Site)
    | Alloc(s: Site, perm: Flags, spare: nat)
    | Unmap(s: Site)

  /** The flags duppage gives the new mapping, and leaves on the old one. */
  function ChildFlags(fl: Flags): Flags {
    if fl.share then fl.(hw := 0) else if fl.w || fl.cow then PUCOW else PU
  }

  function ParentFlags(fl: Flags): Flags {
    if !fl.share && (fl.w || fl.cow) then PUCOW else fl
  }

  /** duppage: the child's mapping first, then the parent's own remapping. */
  function DupPage(page: map<Site, Mapping>, src: Site, dst: Site): map<Site, Mapping>
    requires src in page
  {
    var m := page[src];
    page[dst := Mapping(m.frame, ChildFlags(m.flags))][src := Mapping(m.frame, ParentFlags(m.flags))]
  }

  ghost predicate Enabled(l: Lazy, step: Step) {
    match step
    case Write(s, at, _, spare) =>
      && s in l.page && l.page[s].frame < |l.data| && at < |View(l, s)|
      && (!l.page[s].flags.w && l.page[s].flags.cow ==> Fresh(l, spare))
    case Dup(src, dst) => src in l.page && src != dst
    case Alloc(_, perm, spare) => Fresh(l, spare) && perm.u && !(perm.share && perm.cow)
    case Unmap(_) => true
  }

  /** A store: direct when the page is writable; through pgfault, which moves
      the page to a private copy, when it is copy-on-write; refused otherwise. */
  function LazyStep(l: Lazy, step: Step): Lazy
    requires Enabled(l, step)
  {
    match step
    case Write(s, at, w, spare) =>
      var m := l.page[s];
      if m.flags.w then l.(data := l.data[m.frame := l.data[m.frame][at := w]])
      else if m.flags.cow then
        Lazy(l.page[s := Mapping(spare, PUW)], l.data[spare := l.data[m.frame][at := w]])
      else l
    case Dup(src, dst) => l.(page := DupPage(l.page, src, dst))
    case Alloc(s, perm, spare) =>
      Lazy(l.page[s := Mapping(spare, perm)], l.data[spare := seq(|l.data[spare]|, i => ZERO)])
    case Unmap(s) => l.(page := l.page - {s})
  }

  // ----- the eager machine: a private page has its own copy from the moment of the fork -----

  datatype Held = Own(content: Row, writable: bool) | Common(cell: nat, writable: bool)

  datatype Eager = Eager(page: map<Site, Held>, cell: seq<Row>)

  function EagerView(g: Eager, s: Site): Row
    requires s in g.page && (g.page[s].Common? ==> g.page[s].cell < |g.cell|)
  {
    if g.page[s].Own? then g.page[s].content else g.cell[g.page[s].cell]
  }

  ghost predicate EagerOk(g: Eager) {
    forall s :: s in g.page && g.page[s].Common? ==> g.page[s].cell < |g.cell|
  }

  ghost predicate EagerEnabled(g: Eager, step: Step) {
    match step
    case Write(s, at, _, _) => EagerOk(g) && s in g.page && at < |EagerView(g, s)|
    case Dup(src, _) => src in g.page
    case Alloc(_, _, spare) => spare < |g.cell|
    case Unmap(_) => true
  }

  function EagerStep(g: Eager, step: Step): Eager
    requires EagerEnabled(g, step)
  {
    match step
    case Write(s, at, w, _) =>
      if !g.page[s].writable then g
      else if g.page[s].Own? then g.(page := g.page[s := Own(g.page[s].content[at := w], true)])
      else g.(cell := g.cell[g.page[s].cell := g.cell[g.page[s].cell][at := w]])
    case Dup(src, dst) => g.(page := g.page[dst := g.page[src]])
    case Alloc(s, perm, spare) =>
      var zeros := seq(|g.cell[spare]|, i => ZERO);
      if perm.share then Eager(g.page[s := Common(spare, perm.w)], g.cell[spare := zeros])
      else g.(page := g.page[s := Own(zeros, perm.w || perm.cow)])
    case Unmap(s) => g.(page := g.page - {s})
  }

  /** Page s looks the same from both machines; a shared page is the same cell as frame. */
  ghost predicate SamePage(l: Lazy, g: Eager, s: Site)
    requires s in l.page && s in g.page && l.page[s].frame < |l.data| && |g.cell| == |l.data|
  {
    var m := l.page[s];
    match g.page[s]
    case Own(content, writable) =>
      !m.flags.share && content == l.data[m.frame] && (writable <==> m.flags.w || m.flags.cow)
    case Common(cell, writable) =>
      m.flags.share && cell == m.frame && g.cell[cell] == l.data[m.frame] && (writable <==> m.flags.w)
  }

  ghost predicate Related(l: Lazy, g: Eager) {
    && LazyInv(l)
    && l.page.Keys == g.page.Keys
    && |g.cell| == |l.data| && (forall f :: 0 <= f < |l.data| ==> |g.cell[f]| == |l.data[f]|)
    && forall s :: s in l.page ==> SamePage(l, g, s)
  }

  lemma WriteKeepsLazyInv(l: Lazy, step: Step)
    requires LazyInv(l) && Enabled(l, step) && step.Write?
    ensures LazyInv(LazyStep(l, step))
  {
  }

  lemma DupKeepsLazyInv(l: Lazy, src: Site, dst: Site)
    requires LazyInv(l) && src in l.page && src != dst
    ensures LazyInv(l.(page := DupPage(l.page, src, dst)))
  {
    var page' := DupPage(l.page, src, dst);
    forall s | s in page' && s != src && s != dst ensures s in l.page && page'[s] == l.page[s] {
    }
  }

  lemma StepKeepsLazyInv(l: Lazy, step: Step)
    requires LazyInv(l) && Enabled(l, step)
    ensures LazyInv(LazyStep(l, step))
  {
    match step
    case Write(_, _, _, _) => WriteKeepsLazyInv(l, step);
    case Dup(src, dst) => DupKeepsLazyInv(l, src, dst);
    case Alloc(_, _, _) =>
    case Unmap(_) =>
  }

  lemma WriteKeeps(l: Lazy, g: Eager, step: Step)
    requires Related(l, g) && step.Write? && Enabled(l, step)
    ensures EagerEnabled(g, step) && Related(LazyStep(l, step), EagerStep(g, step))
  {
    assert SamePage(l, g, step.s);
    assert EagerEnabled(g, step);
    StepKeepsLazyInv(l, step);
    var l', g' := LazyStep(l, step), EagerStep(g, step);
    forall x | x in l'.page ensures SamePage(l', g', x) {
      WriteKeepsPage(l, g, step, x);
    }
  }

  lemma WriteKeepsPage(l: Lazy, g: Eager, step: Step, x: Site)
    requires Related(l, g) && step.Write? && Enabled(l, step) && x in l.page
    ensures EagerEnabled(g, step)
    ensures var l', g' := LazyStep(l, step), EagerStep(g, step);
      x in l'.page && x in g'.page && l'.page[x].frame < |l'.data| && |g'.cell| == |l'.data| && SamePage(l', g', x)
  {
    assert SamePage(l, g, step.s) && SamePage(l, g, x);
  }

  lemma DupKeeps(l: Lazy, g: Eager, step: Step)
    requires Related(l, g) && step.Dup? && Enabled(l, step)
    ensures EagerEnabled(g, step) && Related(LazyStep(l, step), EagerStep(g, step))
  {
    var l', g' := LazyStep(l, step), EagerStep(g, step);
    StepKeepsLazyInv(l, step);
    forall x | x in l'.page ensures SamePage(l', g', x) {
      DupKeepsPage(l, g, step, x);
    }
  }

  lemma DupKeepsPage(l: Lazy, g: Eager, step: Step, x: Site)
    requires Related(l, g) && step.Dup? && Enabled(l, step) && (x in l.page || x == step.dst)
    ensures var l', g' := LazyStep(l, step), EagerStep(g, step);
      x in l'.page && x in g'.page && l'.page[x].frame < |l'.data| && |g'.cell| == |l'.data| && SamePage(l', g', x)
  {
    assert SamePage(l, g, step.src);
    if x in l.page {
      assert SamePage(l, g, x);
    }
  }

  lemma AllocKeeps(l: Lazy, g: Eager, step: Step)
    requires Related(l, g) && step.Alloc? && Enabled(l, step)
    ensures EagerEnabled(g, step) && Related(LazyStep(l, step), EagerStep(g, step))
  {
    var l', g' := LazyStep(l, step), EagerStep(g, step);
    StepKeepsLazyInv(l, step);
    forall x | x in l'.page ensures SamePage(l', g', x) {
      if x in l.page {
        assert SamePage(l, g, x);
      }
    }
  }

  lemma UnmapKeeps(l: Lazy, g: Eager, step: Step)
    requires Related(l, g) && step.Unmap?
    ensures Related(LazyStep(l, step), EagerStep(g, step))
  {
    var l', g' := LazyStep(l, step), EagerStep(g, step);
    forall x | x in l'.page ensures SamePage(l', g', x) {
      assert SamePage(l, g, x);
    }
  }

  lemma StepKeeps(l: Lazy, g: Eager, step: Step)
    requires Related(l, g) && Enabled(l, step)
    ensures EagerEnabled(g, step) && Related(LazyStep(l, step), EagerStep(g, step))
  {
    match step
    case Write(_, _, _, _) => WriteKeeps(l, g, step);
    case Dup(_, _) => DupKeeps(l, g, step);
    case Alloc(_, _, _) => AllocKeeps(l, g, step);
    case Unmap(_) => UnmapKeeps(l, g, step);
  }

  ghost predicate LazyRun(ls: seq<Lazy>, steps: seq<Step>) {
    && |ls| == |steps| + 1
    && forall i {:trigger steps[i]} :: 0 <= i < |steps| ==>
         Enabled(ls[i], steps[i]) && ls[i + 1] == LazyStep(ls[i], steps[i])
  }

  /** The eager machine run on the same steps. */
  ghost predicate EagerRun(gs: seq<Eager>, steps: seq<Step>) {
    && |gs| == |steps| + 1
    && forall i {:trigger steps[i]} :: 0 <= i < |steps| && EagerEnabled(gs[i], steps[i]) ==>
         gs[i + 1] == EagerStep(gs[i], steps[i])
  }

  /** Copy-on-write refines eager copying: in every run, however stores, page
      duplications, allocations and unmaps of any environments interleave,
      every environment sees in every page what it would see had each
      duplicated page been copied on the spot; a page is writable in one
      machine exactly when it is in the other; and PTE_SHARE pages that share
      a frame share a cell. */
  lemma {:induction false} CowRefinesEager(ls: seq<Lazy>, gs: seq<Eager>, steps: seq<Step>, n: nat, s: Site)
    requires LazyRun(ls, steps) && EagerRun(gs, steps) && Related(ls[0], gs[0])
    requires n < |ls|
    ensures Related(ls[n], gs[n])
    ensures s in ls[n].page <==> s in gs[n].page
    ensures s in ls[n].page ==> View(ls[n], s) == EagerView(gs[n], s)
    ensures s in ls[n].page ==> (gs[n].page[s].Common? <==> ls[n].page[s].flags.share)
  {
    if n > 0 {
      CowRefinesEager(ls, gs, steps, n - 1, s);
      var step := steps[n - 1];
      StepKeeps(ls[n - 1], gs[n - 1], step);
    }
    if s in ls[n].page {
      assert SamePage(ls[n], gs[n], s);
    }
  }

  /** Related is met from any state that meets the invariant. */
  lemma EagerStart(l: Lazy)
    requires LazyInv(l)
    ensures exists g :: Related(l, g)
  {
    var page := map s | s in l.page ::
      if l.page[s].flags.share then Common(l.page[s].frame, l.page[s].flags.w)
      else Own(l.data[l.page[s].frame], l.page[s].flags.w || l.page[s].flags.cow);
    var g := Eager(page, l.data);
    forall s | s in l.page ensures SamePage(l, g, s) {
    }
    assert Related(l, g);
  }

  // ----- duppage is two system calls -----

  /** The first call maps the page into the child; the second maps the child's page back. */
  function FirstCall(l: Lazy, src: Site, dst: Site): Lazy
    requires src in l.page
  {
    l.(page := l.page[dst := Mapping(l.page[src].frame, PUCOW)])
  }

  function SecondCall(l: Lazy, src: Site, dst: Site): Lazy
    requires dst in l.page
  {
    l.(page := l.page[src := Mapping(l.page[dst].frame, PUCOW)])
  }

  /** The two calls of duppage with a store by the parent, to the same page, in between:
      a writable page leaks the store to the child, a copy-on-write one loses it. Parent
      and child are as eager copying would leave them exactly when the store changes nothing. */
  lemma StoreBetweenCalls(l: Lazy, src: Site, dst: Site, at: nat, w: Word, spare: nat)
    requires LazyInv(l) && src in l.page && src != dst && Fresh(l, spare)
    requires !l.page[src].flags.share && (l.page[src].flags.w || l.page[src].flags.cow)
    requires at < |View(l, src)|
    ensures SecondCall(FirstCall(l, src, dst), src, dst).page == DupPage(l.page, src, dst)
    ensures var before, after := View(l, src), View(l, src)[at := w];
            var mid := FirstCall(l, src, dst);
            && Enabled(mid, Write(src, at, w, spare))
            && var end := SecondCall(LazyStep(mid, Write(src, at, w, spare)), src, dst);
            && View(end, src) == View(end, dst) == (if l.page[src].flags.w then after else before)
            && (View(end, dst) == before && View(end, src) == after <==> before[at] == w)
  {
    var before, after := View(l, src), View(l, src)[at := w];
    assert before[at] == w ==> before == after;
    assert after[at] == w;
    var mid := FirstCall(l, src, dst);
    assert mid.page[src] == l.page[src] && View(mid, src) == before;
  }

  // ----- flags that sys_page_alloc accepts and the invariant leaves out -----

  /** A shared page stays shared over a store exactly if it is writable, or the store changes nothing:
      a page both PTE_SHARE and PTE_COW is copied on the first store, and no longer shared. */
  lemma StoreSharedIff(l: Lazy, a: Site, b: Site, at: nat, w: Word, spare: nat)
    requires a in l.page && b in l.page && a != b && l.page[a].frame == l.page[b].frame < |l.data|
    requires l.page[a].flags.w || l.page[a].flags.cow
    requires at < |View(l, a)| && Fresh(l, spare)
    ensures Enabled(l, Write(a, at, w, spare))
    ensures var l' := LazyStep(l, Write(a, at, w, spare));
      View(l', b) == View(l', a) <==> l.page[a].flags.w || View(l, a)[at] == w
  {
    var l' := LazyStep(l, Write(a, at, w, spare));
    assert View(l', a) == View(l, a)[at := w] && View(l', a)[at] == w;
  }

  /** duppage leaves both environments the access the parent had exactly if the page had PTE_U, or is
      shared; a private page without it becomes visible to the child, and if it is writable or
      copy-on-write to the parent too. */
  lemma DupKeepsAccessIff(page: map<Site, Mapping>, src: Site, dst: Site)
    requires src in page && src != dst
    ensures var page', fl := DupPage(page, src, dst), page[src].flags;
      && (page'[dst].flags.u == fl.u <==> fl.u || fl.share)
      && (page'[src].flags.u == fl.u <==> fl.u || fl.share || !(fl.w || fl.cow))
  {
  }
}
