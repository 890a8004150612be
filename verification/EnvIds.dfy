/** kern/env.c: the ids env_alloc hands out for a slot, and which of them
    envid2env still accepts later. */
module EnvIds {
  import opened Options
  import opened Counting
  import opened Errors
  import opened FreeList
  import Kernel

  const NENV: nat := 1024
  const GEN: nat := 4096           // 1 << ENVGENSHIFT
  const CYCLE: nat := 524287       // 2^19 - 1: distinct generations
  const HALF: nat := 0x8000_0000

  /** A sum that may pass 2^31, as the int32_t it is stored in. */
  function Wrap32(x: int): int {
    if x >= HALF then x - 2 * HALF else x
  }

  /** The id env_alloc gives to a slot whose previous id was id. */
  function NextId(id: int, slot: nat): int {
    var sum := Wrap32(id + GEN);
    var generation := sum - sum % NENV;
    (if generation <= 0 then GEN else generation) + slot
  }

  /** The id of the k-th environment to use a slot; env_init stores 0 before the first. */
  function KthId(slot: nat, k: nat): int {
    if k == 0 then 0 else NextId(KthId(slot, k - 1), slot)
  }

  /** Which of the CYCLE generations the k-th use of a slot is in, from 1. */
  function Generation(k: nat): nat
    requires k > 0
  {
    (k - 1) % CYCLE + 1
  }

  lemma NextIdIs(g: nat, slot: nat)
    requires 1 <= g <= CYCLE && slot < NENV
    ensures NextId(g * GEN + slot, slot) == (if g == CYCLE then 1 else g + 1) * GEN + slot
  {
    var sum := Wrap32(g * GEN + slot + GEN);
    if g < CYCLE {
      assert sum == NENV * (4 * (g + 1)) + slot;
    } else {
      assert sum == NENV * (-2 * 1048576) + slot;
    }
    assert sum % NENV == slot;
  }

  lemma GenerationNext(k: nat)
    requires k > 0
    ensures Generation(k + 1) == if Generation(k) == CYCLE then 1 else Generation(k) + 1
  {
  }

  lemma IdBounds(g: nat, slot: nat)
    requires 1 <= g <= CYCLE && slot < NENV
    ensures 0 < g * GEN + slot < HALF && (g * GEN + slot) % NENV == slot
  {
    assert g * GEN + slot == NENV * (4 * g) + slot;
  }

  /** Ids step through the generations and start again, whatever the wrap-around does. */
  lemma {:induction false} KthIdIs(slot: nat, k: nat)
    requires slot < NENV && k > 0
    ensures KthId(slot, k) == Generation(k) * GEN + slot
    ensures 0 < KthId(slot, k) < HALF && KthId(slot, k) % NENV == slot
  {
    if k == 1 {
      assert KthId(slot, 1) == NextId(0, slot) == GEN + slot;
    } else {
      KthIdIs(slot, k - 1);
      NextIdIs(Generation(k - 1), slot);
      GenerationNext(k - 1);
    }
    IdBounds(Generation(k), slot);
  }

  lemma SameGeneration(k: nat, k': nat)
    requires k > 0 && k' > 0
    ensures Generation(k) == Generation(k') <==> (k - k') % CYCLE == 0
  {
    assert k - k' == CYCLE * ((k - 1) / CYCLE - (k' - 1) / CYCLE) + Generation(k) - Generation(k');
  }

  lemma SplitId(g: nat, slot: nat, g': nat, slot': nat)
    requires slot < NENV && slot' < NENV
    ensures g * GEN + slot == g' * GEN + slot' <==> g == g' && slot == slot'
  {
  }

  /** Two uses of a slot share an id exactly when they are a multiple of CYCLE apart;
      uses of different slots never do. */
  lemma IdsRepeatIff(slot: nat, k: nat, slot': nat, k': nat)
    requires slot < NENV && slot' < NENV && k > 0 && k' > 0
    ensures KthId(slot, k) == KthId(slot', k') <==> slot == slot' && (k - k') % CYCLE == 0
  {
    KthIdIs(slot, k);
    KthIdIs(slot', k');
    SameGeneration(k, k');
    SplitId(Generation(k), slot, Generation(k'), slot');
  }

  /** The id table over time: uses[i] counts the environments slot i has held. */
  datatype Table = Table(ids: seq<int>, live: seq<bool>, uses: seq<nat>)

  datatype Event = Alloc(slot: nat) | Free(slot: nat)

  predicate RowOk(t: Table, i: nat)
    requires i < |t.ids| == |t.live| == |t.uses|
  {
    t.ids[i] == KthId(i, t.uses[i]) && (t.live[i] ==> t.uses[i] > 0)
  }

  predicate Inv(t: Table) {
    && |t.ids| == |t.live| == |t.uses| == NENV
    && forall i: nat {:trigger RowOk(t, i)} :: i < NENV ==> RowOk(t, i)
  }

  predicate Allowed(t: Table, ev: Event)
    requires Inv(t)
  {
    ev.slot < NENV && t.live[ev.slot] == ev.Free?
  }

  /** env_alloc and env_free, as far as ids go: freeing a slot leaves its id in place. */
  function Apply(t: Table, ev: Event): Table
    requires Inv(t) && Allowed(t, ev)
  {
    var i := ev.slot;
    if ev.Free? then t.(live := t.live[i := false])
    else Table(t.ids[i := NextId(t.ids[i], i)], t.live[i := true], t.uses[i := t.uses[i] + 1])
  }

  lemma ApplyKeeps(t: Table, ev: Event)
    requires Inv(t) && Allowed(t, ev)
    ensures Inv(Apply(t, ev))
  {
    forall j: nat | j < NENV ensures RowOk(Apply(t, ev), j) {
      assert RowOk(t, j);
      assert KthId(j, t.uses[j] + 1) == NextId(t.ids[j], j);
    }
  }

  predicate Run(t: Table, events: seq<Event>, t': Table)
    requires Inv(t)
    decreases |events|
  {
    if events == [] then t' == t
    else Allowed(t, events[0]) && (ApplyKeeps(t, events[0]); Run(Apply(t, events[0]), events[1..], t'))
  }

  function Allocs(events: seq<Event>, slot: nat): nat {
    if events == [] then 0
    else (if events[0] == Alloc(slot) then 1 else 0) + Allocs(events[1..], slot)
  }

  predicate Freed(events: seq<Event>, slot: nat) {
    Free(slot) in events
  }

  lemma {:induction false} RunCounts(t: Table, events: seq<Event>, t': Table, slot: nat)
    requires Inv(t) && Run(t, events, t') && slot < NENV
    ensures Inv(t') && t'.uses[slot] == t.uses[slot] + Allocs(events, slot)
    ensures t.live[slot] && !Freed(events, slot) ==> t'.live[slot] && Allocs(events, slot) == 0
    ensures t.live[slot] && Freed(events, slot) ==> !t'.live[slot] || Allocs(events, slot) > 0
    decreases |events|
  {
    if events != [] {
      var t1 := Apply(t, events[0]);
      ApplyKeeps(t, events[0]);
      assert RowOk(t, slot) && RowOk(t1, slot);
      RunCounts(t1, events[1..], t', slot);
      if t.live[slot] && !t1.live[slot] && t'.live[slot] {
        RevivedByAlloc(t1, events[1..], t', slot);
      }
    }
  }

  lemma {:induction false} RevivedByAlloc(t: Table, events: seq<Event>, t': Table, slot: nat)
    requires Inv(t) && Run(t, events, t') && slot < NENV && !t.live[slot]
    requires Inv(t') && t'.live[slot]
    ensures Allocs(events, slot) > 0
    decreases |events|
  {
    if events != [] && events[0] != Alloc(slot) {
      ApplyKeeps(t, events[0]);
      RevivedByAlloc(Apply(t, events[0]), events[1..], t', slot);
    }
  }

  /** The kernel's environment table shows these ids. */
  predicate Shows(k: Kernel.K, t: Table)
    requires Inv(t)
  {
    && |k.envs| == NENV
    && forall i: nat :: i < NENV ==> k.envs[i].id == t.ids[i] && (k.envs[i].status == Kernel.Free <==> !t.live[i])
  }

  /** An id of a slot's own resolves exactly when the slot is live and holds it. */
  lemma LookupIs(t: Table, k: Kernel.K, c: nat, id: int, slot: nat)
    requires Inv(t) && Shows(k, t) && slot < NENV && id > 0 && id % NENV == slot
    requires c < |k.cur| && k.cur[c].Some? && k.cur[c].value < |k.envs|
    ensures Kernel.Envid2env(k, c, id, false) == if t.live[slot] && t.ids[slot] == id then Some(slot) else None
  {
  }

  /** What an id obtained from a live slot resolves to after any later history: its own
      slot exactly when that slot is live again or still, a multiple of CYCLE uses on. */
  lemma HandleResolvesIff(t: Table, slot: nat, events: seq<Event>, t': Table, k: Kernel.K, c: nat)
    requires Inv(t) && slot < NENV && t.live[slot] && Run(t, events, t')
    requires Inv(t') && Shows(k, t')
    requires c < |k.cur| && k.cur[c].Some? && k.cur[c].value < |k.envs|
    ensures Kernel.Envid2env(k, c, t.ids[slot], false) ==
            if t'.live[slot] && Allocs(events, slot) % CYCLE == 0 then Some(slot) else None
  {
    RunCounts(t, events, t', slot);
    assert RowOk(t, slot) && RowOk(t', slot);
    KthIdIs(slot, t.uses[slot]);
    LookupIs(t', k, c, t.ids[slot], slot);
    if t'.live[slot] {
      IdsRepeatIff(slot, t'.uses[slot], slot, t.uses[slot]);
    }
  }

  /** A dead environment's id is rejected until its slot has been used CYCLE more times. */
  lemma StaleHandleRejected(t: Table, slot: nat, events: seq<Event>, t': Table, k: Kernel.K, c: nat, checkperm: bool)
    requires Inv(t) && slot < NENV && t.live[slot] && Run(t, events, t')
    requires Freed(events, slot) && Allocs(events, slot) < CYCLE
    requires Inv(t') && Shows(k, t')
    requires c < |k.cur| && k.cur[c].Some? && k.cur[c].value < |k.envs|
    ensures Kernel.Envid2env(k, c, t.ids[slot], checkperm) == None
  {
    HandleResolvesIff(t, slot, events, t', k, c);
    RunCounts(t, events, t', slot);
    assert RowOk(t, slot) && RowOk(t', slot);
    KthIdIs(slot, t.uses[slot]);
  }

  // ----- the table as code -----

  /** The slots from i on, in order. */
  function SlotsFrom(i: nat): seq<nat>
    requires i <= NENV
    decreases NENV - i
  {
    if i == NENV then [] else [i] + SlotsFrom(i + 1)
  }

  lemma {:induction false} SlotsFromIs(i: nat)
    requires i <= NENV
    ensures Distinct(SlotsFrom(i)) && forall x: nat :: x in SlotsFrom(i) <==> i <= x < NENV
    decreases NENV - i
  {
    if i < NENV {
      SlotsFromIs(i + 1);
      var rest := SlotsFrom(i + 1);
      assert forall x: nat :: x in [i] + rest <==> x == i || x in rest;
      assert forall k :: 0 <= k < |rest| ==> rest[k] in rest;
    }
  }

  lemma {:induction false} InOrder(link: seq<int>, i: nat)
    requires i <= NENV == |link|
    requires forall j :: i <= j < NENV ==> link[j] == if j + 1 < NENV then j + 1 else NULL
    ensures Chain(if i < NENV then i else NULL, link, SlotsFrom(i))
    decreases NENV - i
  {
    if i < NENV {
      InOrder(link, i + 1);
    }
  }

  /** env_init's loop. */
  method LinkAll() returns (link: seq<int>, head: int)
    ensures |link| == NENV && Chain(head, link, SlotsFrom(0))
  {
    link, head := seq(NENV, i => NULL), NULL;
    var i := 0;
    while i < NENV
      invariant i <= NENV == |link|
      invariant head == if i == 0 then NULL else 0
      invariant forall j :: 0 <= j < NENV ==> link[j] == if j + 1 < i then j + 1 else NULL
    {
      link := link[i := NULL];
      if head == NULL {
        head := i;
      } else {
        link := link[i - 1 := i];
      }
      i := i + 1;
    }
    InOrder(link, 0);
  }

  class EnvTab {
    /** envs[].env_id, whether env_status is not ENV_FREE, envs[].env_link and env_free_list. */
    var ids: seq<int>
    var live: seq<bool>
    var link: seq<int>
    var freeHead: int
    ghost var uses: seq<nat>
    ghost var free: seq<nat>

    ghost function View(): Table
      reads this
    {
      Table(ids, live, uses)
    }

    /** The free list holds each free slot once, and no other. */
    ghost predicate Valid()
      reads this
    {
      && Inv(View()) && |link| == NENV
      && Chain(freeHead, link, free) && Distinct(free)
      && forall i: nat :: i in free <==> i < NENV && !live[i]
    }

    /** env_init: the free list runs through the slots in order. */
    constructor ()
      ensures Valid() && free == SlotsFrom(0)
      ensures View() == Table(seq(NENV, i => 0), seq(NENV, i => false), seq(NENV, i => 0))
    {
      var links, head := LinkAll();
      SlotsFromIs(0);
      ids, live, uses := seq(NENV, i => 0), seq(NENV, i => false), seq(NENV, i => 0);
      link, freeHead, free := links, head, SlotsFrom(0);
    }

    /** env_alloc; vm is what env_setup_vm answers. The id and the slot, or an error. */
    method EnvAlloc(vm: int) returns (r: int, slot: nat)
      requires Valid()
      modifies this
      ensures Valid()
      ensures r > 0 <==> old(free) != [] && vm >= 0
      ensures r <= 0 ==> View() == old(View()) && r == if old(free) == [] then -E_NO_FREE_ENV else vm
      ensures r > 0 ==>
                && slot == old(free)[0] && Allowed(old(View()), Alloc(slot)) && View() == Apply(old(View()), Alloc(slot))
                && r == ids[slot] == KthId(slot, uses[slot]) && free == old(free)[1..]
    {
      slot := 0;
      if freeHead == NULL {
        return -E_NO_FREE_ENV, 0;
      }
      if vm < 0 {
        return vm, 0;
      }
      ghost var t := View();
      slot := freeHead;
      assert slot in free;
      ApplyKeeps(t, Alloc(slot));
      HeadGone(free);
      ids := ids[slot := NextId(ids[slot], slot)];
      live := live[slot := true];
      uses := uses[slot := uses[slot] + 1];
      freeHead := link[slot];
      free := free[1..];
      assert RowOk(View(), slot);
      KthIdIs(slot, uses[slot]);
      r := ids[slot];
    }

    /** The end of env_free. */
    method EnvFree(slot: nat)
      requires Valid() && slot < NENV && live[slot]
      modifies this
      ensures Valid() && free == [slot] + old(free)
      ensures View() == Apply(old(View()), Free(slot))
    {
      ApplyKeeps(View(), Free(slot));
      assert slot !in free;
      ChainFrame(freeHead, link, free, slot, freeHead);
      live := live[slot := false];
      link := link[slot := freeHead];
      freeHead := slot;
      free := [slot] + free;
      assert free[1..] == old(free);
    }
  }

  lemma HeadGone(s: seq<nat>)
    requires Distinct(s) && s != []
    ensures Distinct(s[1..]) && forall x :: x in s[1..] <==> x in s && x != s[0]
  {
    forall x | x in s && x != s[0] ensures x in s[1..] {
      var i :| 0 <= i < |s| && s[i] == x;
      assert s[1..][i - 1] == x;
    }
  }
}
