/** fs/serv.c: the open-file table, its file ids, and which of them
    openfile_lookup still accepts later. */
module OpenFiles {
  import opened Errors
  import opened Options

  const MAXOPEN: nat := 1024
  const WRAP: nat := 0x1_0000_0000
  const CYCLE: nat := 0x40_0000        // 2^22 = WRAP / MAXOPEN

  /** The table seen from outside: o_fileid of each slot, how often it has been issued,
      and how many mappings its Fd page has (the server's own counts as one). */
  datatype Table = Table(ids: seq<nat>, uses: seq<nat>, refs: seq<nat>)

  predicate RowOk(t: Table, i: nat)
    requires i < |t.ids| == |t.uses| == |t.refs|
  {
    t.ids[i] == (i + MAXOPEN * t.uses[i]) % WRAP && (t.uses[i] > 0 ==> t.refs[i] > 0)
  }

  predicate Inv(t: Table) {
    && |t.ids| == |t.uses| == |t.refs| == MAXOPEN
    && forall i: nat {:trigger RowOk(t, i)} :: i < MAXOPEN ==> RowOk(t, i)
  }

  /** What sys_page_alloc answered: done, no frame (a positive code, on which the
      system call stub panics), or no page table (a negative code). */
  datatype PageAlloc = Mapped | NoFrame | NoTable

  datatype Outcome = Opened(slot: nat, id: int) | Failed(code: int) | Panic

  /** The first slot whose Fd page no client maps, from i on. */
  function FirstIdle(refs: seq<nat>, i: nat): nat
    requires i <= |refs|
    decreases |refs| - i
  {
    if i == |refs| || refs[i] <= 1 then i else FirstIdle(refs, i + 1)
  }

  /** A 32-bit unsigned value returned as an int. */
  function AsInt(x: nat): int {
    if x < WRAP / 2 then x else x - WRAP
  }

  /** openfile_alloc as a function of the table. */
  function Open(t: Table, page: PageAlloc): (Table, Outcome)
    requires Inv(t)
  {
    var i := FirstIdle(t.refs, 0);
    if i >= MAXOPEN then (t, Failed(-E_MAX_OPEN))
    else if t.refs[i] == 0 && page.NoFrame? then (t, Panic)
    else if t.refs[i] == 0 && page.NoTable? then (t, Failed(-E_NO_MEM))
    else
      var id := (t.ids[i] + MAXOPEN) % WRAP;
      (Table(t.ids[i := id], t.uses[i := t.uses[i] + 1], t.refs[i := 1]), Opened(i, AsInt(id)))
  }

  class OpenTab {
    var fileid: array<nat>
    var refs: seq<nat>             // pageref of each slot's Fd page
    ghost var uses: seq<nat>

    ghost predicate Valid()
      reads this, fileid
    {
      Inv(Table(fileid[..], uses, refs))
    }

    ghost function View(): Table
      reads this, fileid
    {
      Table(fileid[..], uses, refs)
    }

    /** serve_init, on the zeroed table in the data section. */
    constructor ()
      ensures Valid() && fresh(fileid)
      ensures View() == Table(seq(MAXOPEN, i => i), seq(MAXOPEN, i => 0), seq(MAXOPEN, i => 0))
    {
      fileid := new nat[MAXOPEN];
      refs := seq(MAXOPEN, i => 0);
      uses := seq(MAXOPEN, i => 0);
      new;
      var i := 0;
      while i < MAXOPEN
        invariant i <= MAXOPEN == fileid.Length && fresh(fileid)
        invariant forall j :: 0 <= j < i ==> fileid[j] == j
        invariant refs == uses == seq(MAXOPEN, i => 0)
      {
        fileid[i] := i;
        i := i + 1;
      }
      forall j: nat | j < MAXOPEN ensures RowOk(View(), j) {
        assert View().ids[j] == j;
      }
      assert fileid[..] == seq(MAXOPEN, i => i);
    }

    /** openfile_alloc. page is what sys_page_alloc would answer. */
    method OpenfileAlloc(page: PageAlloc) returns (r: Outcome)
      requires Valid()
      modifies this, fileid
      ensures fileid == old(fileid) && Valid()
      ensures (View(), r) == Open(old(View()), page)
    {
      ghost var t := View();
      var i := 0;
      while i < MAXOPEN
        invariant i <= MAXOPEN && fileid == old(fileid) && View() == t
        invariant FirstIdle(refs, 0) == FirstIdle(refs, i)
      {
        if refs[i] <= 1 {
          if refs[i] == 0 {
            if page.NoFrame? {
              return Panic;
            }
            if page.NoTable? {
              return Failed(-E_NO_MEM);
            }
            refs := refs[i := 1];
          }
          assert refs == t.refs[i := 1];
          fileid[i] := (fileid[i] + MAXOPEN) % WRAP;
          uses := uses[i := uses[i] + 1];
          assert View().ids == t.ids[i := fileid[i]];
          OpenKeeps(t, page);
          return Opened(i, AsInt(fileid[i]));
        }
        i := i + 1;
      }
      return Failed(-E_MAX_OPEN);
    }

    /** openfile_lookup: it looks at one slot only, and yet finds the slot that carries the id
        and is mapped by a client wherever in the table that is; None is -E_INVAL. */
    method OpenfileLookup(id: nat) returns (r: Option<nat>)
      requires Valid()
      ensures forall i: nat :: r == Some(i) <==> i < MAXOPEN && refs[i] > 1 && fileid[i] == id
    {
      LookupFinds(View(), id);
      var i := id % MAXOPEN;
      if refs[i] <= 1 || fileid[i] != id {
        return None;
      }
      return Some(i);
    }
  }

  /** Slot i is the first that no client maps. */
  predicate IdleFirst(t: Table, i: nat) {
    i < |t.refs| && t.refs[i] <= 1 && forall x :: 0 <= x < i ==> t.refs[x] > 1
  }

  /** openfile_alloc: it fails for want of a slot exactly if every slot is mapped by a client; else it
      takes the first that is not, with its next id, and changes no other; only a slot that has
      never been used needs a page, and only then can it fail for want of memory. */
  lemma OpenExact(t: Table, page: PageAlloc, i: nat)
    requires Inv(t)
    ensures Open(t, page).1 == Failed(-E_MAX_OPEN) <==> forall x :: 0 <= x < MAXOPEN ==> t.refs[x] > 1
    ensures IdleFirst(t, i) ==> var (t', r) := Open(t, page);
      if t.refs[i] == 1 || page == Mapped
      then r.Opened? && r.slot == i && t'.refs == t.refs[i := 1] && t'.uses == t.uses[i := t.uses[i] + 1] &&
           t'.ids == t.ids[i := (i + MAXOPEN * (t.uses[i] + 1)) % WRAP]
      else t' == t && r == if page == NoTable then Failed(-E_NO_MEM) else Panic
  {
    FirstIdleIs(t.refs, 0);
    if IdleFirst(t, i) {
      assert FirstIdle(t.refs, 0) == i;
      OpenKeeps(t, page);
      if Open(t, page).1.Opened? {
        assert RowOk(Open(t, page).0, i);
      }
    }
  }

  function Lookup(t: Table, id: nat): Option<nat>
    requires Inv(t)
  {
    var i := id % MAXOPEN;
    if t.refs[i] <= 1 || t.ids[i] != id then None else Some(i)
  }

  lemma {:induction false} FirstIdleIs(refs: seq<nat>, i: nat)
    requires i <= |refs|
    ensures i <= FirstIdle(refs, i) <= |refs|
    ensures FirstIdle(refs, i) < |refs| ==> refs[FirstIdle(refs, i)] <= 1
    ensures forall j :: i <= j < FirstIdle(refs, i) ==> refs[j] > 1
    decreases |refs| - i
  {
    if i < |refs| && refs[i] > 1 {
      FirstIdleIs(refs, i + 1);
    }
  }

  lemma NextFileId(i: nat, n: nat)
    ensures ((i + MAXOPEN * n) % WRAP + MAXOPEN) % WRAP == (i + MAXOPEN * (n + 1)) % WRAP
  {
  }

  lemma OpenKeeps(t: Table, page: PageAlloc)
    requires Inv(t)
    ensures Inv(Open(t, page).0)
  {
    var t' := Open(t, page).0;
    FirstIdleIs(t.refs, 0);
    forall j: nat | j < MAXOPEN ensures RowOk(t', j) {
      assert RowOk(t, j);
      NextFileId(j, t.uses[j]);
    }
  }

  // ----- over time -----

  /** A request to open a file, a client gaining a mapping of an issued slot's Fd
      page, or a client losing one. The server's own mapping stays. */
  datatype Event = OpenFile(page: PageAlloc) | Share(slot: nat) | Drop(slot: nat)

  predicate Allowed(t: Table, ev: Event)
    requires Inv(t)
  {
    match ev
    case OpenFile(page) => Open(t, page).1 != Panic
    case Share(i) => i < MAXOPEN && t.refs[i] >= 1
    case Drop(i) => i < MAXOPEN && t.refs[i] >= 2
  }

  function Apply(t: Table, ev: Event): Table
    requires Inv(t) && Allowed(t, ev)
  {
    match ev
    case OpenFile(page) => Open(t, page).0
    case Share(i) => t.(refs := t.refs[i := t.refs[i] + 1])
    case Drop(i) => t.(refs := t.refs[i := t.refs[i] - 1])
  }

  lemma ApplyKeeps(t: Table, ev: Event)
    requires Inv(t) && Allowed(t, ev)
    ensures Inv(Apply(t, ev))
  {
    if ev.OpenFile? {
      OpenKeeps(t, ev.page);
    } else {
      forall j: nat | j < MAXOPEN ensures RowOk(Apply(t, ev), j) {
        assert RowOk(t, j);
      }
    }
  }

  predicate Run(t: Table, events: seq<Event>, t': Table)
    requires Inv(t)
    decreases |events|
  {
    if events == [] then t' == t
    else Allowed(t, events[0]) && (ApplyKeeps(t, events[0]); Run(Apply(t, events[0]), events[1..], t'))
  }

  /** Some client maps the slot's Fd page in every state of the run. */
  predicate HeldThroughout(t: Table, events: seq<Event>, slot: nat)
    requires Inv(t) && slot < MAXOPEN
    decreases |events|
  {
    t.refs[slot] > 1 &&
    (events != [] && Allowed(t, events[0]) ==>
       (ApplyKeeps(t, events[0]); HeldThroughout(Apply(t, events[0]), events[1..], slot)))
  }

  /** An id is issued for a slot only when no client maps its Fd page. */
  lemma NeverReissuedWhileHeld(t: Table, ev: Event, slot: nat)
    requires Inv(t) && Allowed(t, ev) && slot < MAXOPEN
    ensures t.uses[slot] <= Apply(t, ev).uses[slot]
    ensures Apply(t, ev).uses[slot] > t.uses[slot] ==> t.refs[slot] <= 1
  {
    FirstIdleIs(t.refs, 0);
  }

  /** The life of an open file: its id resolves from when a client maps the Fd page until the last one
      has unmapped it; then the slot is free again, and nothing but its id has changed. */
  lemma OpenShareDrop(t: Table, page: PageAlloc)
    requires Inv(t) && Open(t, page).1.Opened?
    ensures var (t1, r) := Open(t, page); var i := r.slot;
      && i < MAXOPEN && Inv(t1) && Lookup(t1, t1.ids[i]) == None && Allowed(t1, Share(i))
      && var t2 := Apply(t1, Share(i));
      && Inv(t2) && Lookup(t2, t2.ids[i]) == Some(i) && Allowed(t2, Share(i)) && Allowed(t2, Drop(i))
      && var t3 := Apply(t2, Share(i));
      && Inv(t3) && Allowed(t3, Drop(i)) && Apply(t3, Drop(i)) == t2 && Apply(t2, Drop(i)) == t1 && t1.refs[i] == 1
  {
    FirstIdleIs(t.refs, 0);
    OpenKeeps(t, page);
    var (t1, r) := Open(t, page);
    var i := r.slot;
    ApplyKeeps(t1, Share(i));
    var t2 := Apply(t1, Share(i));
    ApplyKeeps(t2, Share(i));
    LookupFinds(t1, t1.ids[i]);
    LookupFinds(t2, t2.ids[i]);
    assert t2.refs[i] == 2;
    var t3 := Apply(t2, Share(i));
    assert Allowed(t3, Drop(i));
    assert Apply(t3, Drop(i)).refs == t2.refs && Apply(t2, Drop(i)).refs == t1.refs;
  }

  lemma {:induction false} RunKeeps(t: Table, events: seq<Event>, t': Table, slot: nat)
    requires Inv(t) && Run(t, events, t') && slot < MAXOPEN
    ensures Inv(t') && t.uses[slot] <= t'.uses[slot]
    ensures HeldThroughout(t, events, slot) ==> t'.uses[slot] == t.uses[slot] && t'.refs[slot] > 1
    decreases |events|
  {
    if events != [] {
      ApplyKeeps(t, events[0]);
      NeverReissuedWhileHeld(t, events[0], slot);
      RunKeeps(Apply(t, events[0]), events[1..], t', slot);
    }
  }

  /** Two issues of a slot carry the same id exactly when they are a multiple of CYCLE apart. */
  lemma FileIdsRepeatIff(slot: nat, n: nat, n': nat)
    requires slot < MAXOPEN
    ensures (slot + MAXOPEN * n) % WRAP == slot + MAXOPEN * (n % CYCLE)
    ensures (slot + MAXOPEN * n) % WRAP == (slot + MAXOPEN * n') % WRAP <==> (n' - n) % CYCLE == 0
    ensures (slot + MAXOPEN * n) % WRAP % MAXOPEN == slot
  {
    FileIdIs(slot, n);
    FileIdIs(slot, n');
    assert n' - n == CYCLE * (n' / CYCLE - n / CYCLE) + n' % CYCLE - n % CYCLE;
  }

  /** Looking in slot id % MAXOPEN is looking everywhere: no two slots can carry one id. */
  lemma LookupFinds(t: Table, id: nat)
    requires Inv(t)
    ensures forall i: nat :: Lookup(t, id) == Some(i) <==> i < MAXOPEN && t.refs[i] > 1 && t.ids[i] == id
  {
    forall i: nat | i < MAXOPEN && t.ids[i] == id ensures id % MAXOPEN == i {
      assert RowOk(t, i);
      FileIdsRepeatIff(i, t.uses[i], t.uses[i]);
    }
  }

  lemma FileIdIs(slot: nat, n: nat)
    requires slot < MAXOPEN
    ensures (slot + MAXOPEN * n) % WRAP == slot + MAXOPEN * (n % CYCLE)
  {
    assert slot + MAXOPEN * n == WRAP * (n / CYCLE) + (slot + MAXOPEN * (n % CYCLE));
  }

  /** What an issued id resolves to after any later history: its slot exactly when a client
      maps the slot and the slot has been reissued a multiple of CYCLE times. */
  lemma FileIdResolvesIff(t: Table, slot: nat, events: seq<Event>, t': Table)
    requires Inv(t) && Run(t, events, t') && slot < MAXOPEN
    ensures Inv(t') && t.uses[slot] <= t'.uses[slot]
    ensures Lookup(t', t.ids[slot]) ==
            if t'.refs[slot] > 1 && (t'.uses[slot] - t.uses[slot]) % CYCLE == 0 then Some(slot) else None
    ensures HeldThroughout(t, events, slot) ==> Lookup(t', t.ids[slot]) == Some(slot)
  {
    RunKeeps(t, events, t', slot);
    assert RowOk(t, slot) && RowOk(t', slot);
    FileIdsRepeatIff(slot, t.uses[slot], t'.uses[slot]);
  }

  /** The id a client gets names its slot, and is not mistaken for an error, for the
      first 2^21 - 1 issues of that slot and in the first half of every later cycle. */
  lemma IssuedId(t: Table, page: PageAlloc)
    requires Inv(t) && Open(t, page).1.Opened?
    ensures var (t', r) := Open(t, page);
            && r.slot < MAXOPEN && t.refs[r.slot] <= 1
            && t'.refs == t.refs[r.slot := 1] && t'.uses == t.uses[r.slot := t.uses[r.slot] + 1]
            && r.id % MAXOPEN == r.slot
            && (r.id >= 0 <==> (t.uses[r.slot] + 1) % CYCLE < CYCLE / 2)
            && (t.uses[r.slot] + 1 < CYCLE / 2 ==> r.id == r.slot + MAXOPEN * (t.uses[r.slot] + 1))
  {
    var i := FirstIdle(t.refs, 0);
    FirstIdleIs(t.refs, 0);
    assert RowOk(t, i);
    NextFileId(i, t.uses[i]);
    FileIdIs(i, t.uses[i] + 1);
  }
}
