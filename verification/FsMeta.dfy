/** Which calls of fs/fs.c succeed, fail or panic: block ownership and the bitmap,
    together with the pages of the block cache that every access goes through. */
module FsMeta {
  import opened Errors
  import opened FsSpec
  import opened BlockCache

  /** own and free as in module FsSpec; cached: the blocks whose cache page is mapped;
      tables: the page tables of the cache region that exist. */
  datatype Meta = Meta(own: map<Slot, nat>, free: seq<bool>, cached: set<nat>, tables: set<nat>)

  /** How a call ends: with a block, with an error code, or in one of three panics: in
      diskaddr(), on a block number that is really an error code; in bc_pgfault; or
      in flush_block, on the block that alloc_block has just marked in use. */
  datatype Outcome = Ok(block: nat) | Err(code: int) | BadNumber | FaultPanic | FlushPanic(block: nat)

  /** Owned blocks are real and not free. */
  ghost predicate MetaOk(span: nat, m: Meta) {
    span > 0 && forall s :: s in m.own ==> m.own[s] < |m.free| && !m.free[m.own[s]]
  }

  function FirstFree(free: seq<bool>, i: nat): (b: nat)
    requires i <= |free|
    ensures i <= b <= |free|
    decreases |free| - i
  {
    if i == |free| || free[i] then i else FirstFree(free, i + 1)
  }

  lemma {:induction false} FirstFreeIs(free: seq<bool>, i: nat)
    requires i <= |free|
    ensures FirstFree(free, i) < |free| ==> free[FirstFree(free, i)]
    ensures forall x :: i <= x < FirstFree(free, i) ==> !free[x]
    decreases |free| - i
  {
    if i < |free| && !free[i] {
      FirstFreeIs(free, i + 1);
    }
  }

  predicate NoneFree(free: seq<bool>) {
    forall b :: 0 <= b < |free| ==> !free[b]
  }

  // ----- the cache -----

  /** A first touch of block b at byte `at` ends in bc_pgfault's panic. */
  predicate TouchPanics(m: Meta, b: nat, at: nat) {
    b !in m.cached && FaultPanics(m.free, b, at)
  }

  function Touch(span: nat, m: Meta, b: nat): Meta
    requires span > 0
  {
    if b in m.cached then m else m.(cached := m.cached + {b}, tables := m.tables + {TableOf(span, b)})
  }

  // ----- fs/fs.c -----

  /** alloc_block: the first free block is marked in use, then flushed. */
  function Alloc(span: nat, m: Meta): (Meta, Outcome)
    requires span > 0
  {
    var b := FirstFree(m.free, 0);
    if b == |m.free| then (m, Err(-E_NO_DISK))
    else (m.(free := m.free[b := false]), if FlushPanics(m.cached, m.tables, span, b) then FlushPanic(b) else Ok(b))
  }

  /** The slot that file_block_walk finds for file block bno. */
  function SlotFor(g: Geometry, f: nat, bno: nat): Slot {
    if bno < g.ndirect then Direct(f, bno) else Entry(f, bno - g.ndirect)
  }

  predicate NeedsIndirect(g: Geometry, own: map<Slot, nat>, f: nat, bno: nat) {
    g.ndirect <= bno < g.ndirect + g.nindirect && Indirect(f) !in own
  }

  /** file_block_walk; a new indirect block is cleared, which brings it into the cache. */
  function Walk(g: Geometry, span: nat, m: Meta, f: nat, bno: nat, alloc: bool): (Meta, Outcome)
    requires span > 0
  {
    if bno >= g.ndirect + g.nindirect then (m, Err(-E_INVAL))
    else if !NeedsIndirect(g, m.own, f, bno) then (m, Ok(0))
    else if !alloc then (m, Err(-E_NOT_FOUND))
    else
      var (m1, r) := Alloc(span, m);
      if r.Ok? then (Touch(span, m1.(own := m1.own[Indirect(f) := r.block]), r.block), Ok(0)) else (m1, r)
  }

  /** Reading *ppdiskbno: an entry is read through the cache, a direct pointer with its File record. */
  predicate EntryPanics(m: Meta, s: Slot) {
    s.Entry? && Indirect(s.file) in m.own && TouchPanics(m, m.own[Indirect(s.file)], 4 * s.j)
  }

  function AfterEntry(span: nat, m: Meta, s: Slot): Meta
    requires span > 0
  {
    if s.Entry? && Indirect(s.file) in m.own then Touch(span, m, m.own[Indirect(s.file)]) else m
  }

  /** *pdiskbno, allocated if it is 0. */
  function Follow(span: nat, m: Meta, s: Slot): (Meta, Outcome)
    requires span > 0
  {
    if EntryPanics(m, s) then (m, FaultPanic)
    else
      var m1 := AfterEntry(span, m, s);
      if s in m1.own then (m1, Ok(m1.own[s]))
      else
        var (m2, r) := Alloc(span, m1);
        match r
        case Ok(b) => (m2.(own := m2.own[s := b]), r)
        case Err(_) => (m2, BadNumber)
        case _ => (m2, r)
  }

  /** file_get_block. */
  function GetBlock(g: Geometry, span: nat, m: Meta, f: nat, bno: nat): (Meta, Outcome)
    requires span > 0
  {
    var (m1, r) := Walk(g, span, m, f, bno, true);
    if r.Ok? then Follow(span, m1, SlotFor(g, f, bno)) else (m1, r)
  }

  /** One turn of the loop of file_read and file_write: the block, touched at byte `at`. */
  function Turn(g: Geometry, span: nat, m: Meta, f: nat, bno: nat, at: nat): (Meta, Outcome)
    requires span > 0
  {
    var (m1, r) := GetBlock(g, span, m, f, bno);
    if !r.Ok? then (m1, r)
    else if TouchPanics(m1, r.block, at) then (m1, FaultPanic)
    else (Touch(span, m1, r.block), r)
  }

  /** The loop over blocks bno to last, starting at byte `at` of the first. */
  function Scan(g: Geometry, span: nat, m: Meta, f: nat, bno: nat, last: nat, at: nat): (Meta, Outcome)
    requires span > 0 && bno <= last
    decreases last - bno
  {
    var (m1, r) := Turn(g, span, m, f, bno, at);
    if !r.Ok? || bno == last then (m1, r) else Scan(g, span, m1, f, bno + 1, last, 0)
  }

  // ----- exact conditions -----

  lemma NoneFreeIff(free: seq<bool>)
    ensures NoneFree(free) <==> FirstFree(free, 0) == |free|
    ensures FirstFree(free, 0) < |free| ==> free[FirstFree(free, 0)]
  {
    FirstFreeIs(free, 0);
  }

  lemma WalkOk(g: Geometry, span: nat, m: Meta, f: nat, bno: nat)
    requires MetaOk(span, m)
    ensures MetaOk(span, Walk(g, span, m, f, bno, true).0)
  {
  }

  /** file_block_walk fails exactly so: the block number is out of range, or an indirect block
      is needed and there is none free, or the first free one lies under no page table. */
  lemma WalkOutcome(g: Geometry, span: nat, m: Meta, f: nat, bno: nat)
    requires MetaOk(span, m)
    ensures var r := Walk(g, span, m, f, bno, true).1;
      var b := FirstFree(m.free, 0);
      && (r == Err(-E_INVAL) <==> bno >= g.ndirect + g.nindirect)
      && (r == Err(-E_NO_DISK) <==> NeedsIndirect(g, m.own, f, bno) && NoneFree(m.free))
      && (r.FlushPanic? <==>
            NeedsIndirect(g, m.own, f, bno) && !NoneFree(m.free) && FlushPanics(m.cached, m.tables, span, b))
      && (r.FlushPanic? ==> r.block == b)
      && r != FaultPanic && r != BadNumber && (r.Err? ==> r.code == -E_INVAL || r.code == -E_NO_DISK)
  {
    NoneFreeIff(m.free);
  }

  /** Following a slot panics exactly so. */
  lemma FollowOutcome(span: nat, m: Meta, s: Slot)
    requires MetaOk(span, m) && !s.Indirect?
    ensures var r := Follow(span, m, s).1;
      var m1 := AfterEntry(span, m, s);
      && (r == FaultPanic <==>
            s.Entry? && Indirect(s.file) in m.own && m.own[Indirect(s.file)] !in m.cached && s.j != 0)
      && (r == BadNumber <==> r != FaultPanic && s !in m.own && NoneFree(m.free))
      && (r.FlushPanic? <==>
            && r != FaultPanic && s !in m.own && !NoneFree(m.free)
            && FlushPanics(m1.cached, m1.tables, span, FirstFree(m.free, 0)))
      && !r.Err?
  {
    NoneFreeIff(m.free);
  }

  // ----- the loop, when no page table is missing -----

  /** Every free block is cached or lies under a page table. */
  predicate TablesReady(span: nat, m: Meta)
    requires span > 0
  {
    forall b :: 0 <= b < |m.free| && m.free[b] ==> !FlushPanics(m.cached, m.tables, span, b)
  }

  /** The next touch of f's indirect block cannot be a first touch away from its first byte. */
  predicate EntryReady(g: Geometry, m: Meta, f: nat, bno: nat) {
    bno <= g.ndirect || (Indirect(f) in m.own ==> m.own[Indirect(f)] in m.cached)
  }

  /** The block that file block bno will turn out to be in. */
  function Target(g: Geometry, m: Meta, f: nat, bno: nat): nat {
    var s := SlotFor(g, f, bno);
    var b := FirstFree(m.free, 0);
    if s in m.own then m.own[s]
    else if NeedsIndirect(g, m.own, f, bno) && b < |m.free| then FirstFree(m.free, b + 1)
    else b
  }

  /** The call starts in the middle of a block, or of the indirect block, that is not in the
      cache. Both are known before the call. */
  predicate Misaligned(g: Geometry, m: Meta, f: nat, bno: nat, at: nat) {
    match m
    case Meta(_, free, cached, _) =>
      || !EntryReady(g, m, f, bno)
      || (at != 0 && Target(g, m, f, bno) < |free| && Target(g, m, f, bno) !in cached)
  }

  /** m' has the same or fewer free blocks and the same or more cache pages and tables. */
  ghost predicate Later(m: Meta, m': Meta) {
    && |m'.free| == |m.free| && (forall b :: 0 <= b < |m.free| && m'.free[b] ==> m.free[b])
    && m.cached <= m'.cached && m.tables <= m'.tables
  }

  lemma WalkKeeps(g: Geometry, span: nat, m: Meta, f: nat, bno: nat)
    requires MetaOk(span, m)
    ensures var (m1, r) := Walk(g, span, m, f, bno, true);
      && MetaOk(span, m1) && Later(m, m1)
      && (!NeedsIndirect(g, m.own, f, bno) || !r.Ok? ==> m1.own == m.own && m1.cached == m.cached && m1.tables == m.tables)
      && (r.Ok? && NeedsIndirect(g, m.own, f, bno) ==>
            var b := FirstFree(m.free, 0);
            && b < |m.free| && m1.own == m.own[Indirect(f) := b] && m1.free == m.free[b := false]
            && m1.cached == m.cached + {b})
  {
    WalkOk(g, span, m, f, bno);
  }

  lemma FollowKeeps(span: nat, m: Meta, s: Slot)
    requires MetaOk(span, m) && !s.Indirect?
    ensures var (m1, r) := Follow(span, m, s);
      && MetaOk(span, m1) && Later(m, m1)
      && (forall x :: x in m.own ==> x in m1.own && m1.own[x] == m.own[x])
      && (forall x :: x in m1.own && x != s ==> x in m.own)
      && (r.Ok? ==> s in m1.own && r.block == m1.own[s])
      && (r.Ok? && s.Entry? && Indirect(s.file) in m.own ==> m.own[Indirect(s.file)] in m1.cached)
  {
  }

  lemma GetBlockKeeps(g: Geometry, span: nat, m: Meta, f: nat, bno: nat)
    requires MetaOk(span, m)
    ensures var (m1, r) := GetBlock(g, span, m, f, bno);
      && MetaOk(span, m1) && Later(m, m1)
      && (r.Ok? ==> r.block < |m1.free| && !m1.free[r.block])
      && (r.Ok? && bno >= g.ndirect ==> Indirect(f) in m1.own && m1.own[Indirect(f)] in m1.cached)
  {
    WalkKeeps(g, span, m, f, bno);
    FollowKeeps(span, Walk(g, span, m, f, bno, true).0, SlotFor(g, f, bno));
  }

  /** What following a slot leads to. */
  lemma FollowBlock(span: nat, m: Meta, s: Slot)
    requires MetaOk(span, m) && !s.Indirect?
    ensures var (m1, r) := Follow(span, m, s);
      var b := if s in m.own then m.own[s] else FirstFree(m.free, 0);
      && (r.Ok? ==> r.block == b && b < |m.free| && !m1.free[b])
      && (r.Ok? ==>
            (b in m1.cached <==> b in m.cached || (s.Entry? && Indirect(s.file) in m.own && m.own[Indirect(s.file)] == b)))
      && (!r.Ok? && r != FaultPanic && !r.FlushPanic? ==> b == |m.free|)
  {
  }

  /** A turn that faults, and one that could fault but does not get there. */
  predicate Faults(m1: Meta, r: Outcome, at: nat) {
    r == FaultPanic || (r.Ok? && TouchPanics(m1, r.block, at))
  }

  /** With the walk done. */
  lemma FollowFaults(span: nat, m: Meta, s: Slot, at: nat)
    requires MetaOk(span, m) && OwnedOnce(m) && !s.Indirect? && (s.Entry? ==> Indirect(s.file) in m.own)
    ensures var (m1, r) := Follow(span, m, s);
      var b := if s in m.own then m.own[s] else FirstFree(m.free, 0);
      var bad := (s.Entry? && s.j != 0 && m.own[Indirect(s.file)] !in m.cached) || (at != 0 && b < |m.free| && b !in m.cached);
      (Faults(m1, r, at) ==> bad) && (bad ==> Faults(m1, r, at) || r.FlushPanic?)
  {
    FollowOutcome(span, m, s);
    FollowBlock(span, m, s);
    NoneFreeIff(m.free);
  }

  lemma {:induction false} FirstFreeAfter(free: seq<bool>, i: nat, b: nat)
    requires i <= b < |free| && b == FirstFree(free, i)
    ensures FirstFree(free[b := false], i) == FirstFree(free, b + 1)
    decreases b - i
  {
    if i < b {
      FirstFreeAfter(free, i + 1, b);
    } else {
      FirstFreeSame(free, free[b := false], b + 1);
    }
  }

  lemma {:induction false} FirstFreeSame(free: seq<bool>, free': seq<bool>, i: nat)
    requires i <= |free| == |free'| && forall x :: i <= x < |free| ==> free[x] == free'[x]
    ensures FirstFree(free, i) == FirstFree(free', i)
    decreases |free| - i
  {
    if i < |free| {
      FirstFreeSame(free, free', i + 1);
    }
  }

  /** One turn: it faults only if misaligned, and misaligned it gets no further than this block. */
  lemma TurnFaults(g: Geometry, span: nat, m: Meta, f: nat, bno: nat, at: nat)
    requires MetaOk(span, m) && OwnedOnce(m) && bno < g.ndirect + g.nindirect && EntriesHang(m)
    ensures var (m1, r) := GetBlock(g, span, m, f, bno);
      && (Faults(m1, r, at) ==> Misaligned(g, m, f, bno, at))
      && (Misaligned(g, m, f, bno, at) ==> Faults(m1, r, at) || r.FlushPanic?)
  {
    var (m0, w) := Walk(g, span, m, f, bno, true);
    var s := SlotFor(g, f, bno);
    WalkKeeps(g, span, m, f, bno);
    WalkOutcome(g, span, m, f, bno);
    if NeedsIndirect(g, m.own, f, bno) {
      NoneFreeIff(m.free);
      if w.Ok? {
        NewIndirectFaults(g, span, m, f, bno, at, m0);
      }
    } else {
      FollowFaults(span, m0, s, at);
    }
  }

  lemma NewIndirectFaults(g: Geometry, span: nat, m: Meta, f: nat, bno: nat, at: nat, m0: Meta)
    requires MetaOk(span, m) && OwnedOnce(m) && EntriesHang(m) && NeedsIndirect(g, m.own, f, bno) && MetaOk(span, m0)
    requires var b := FirstFree(m.free, 0);
      && b < |m.free| && m0.own == m.own[Indirect(f) := b] && m0.free == m.free[b := false] && m0.cached == m.cached + {b}
    ensures var (m1, r) := Follow(span, m0, SlotFor(g, f, bno));
      && (Faults(m1, r, at) ==> Misaligned(g, m, f, bno, at))
      && (Misaligned(g, m, f, bno, at) ==> Faults(m1, r, at) || r.FlushPanic?)
  {
    FirstFreeAfter(m.free, 0, FirstFree(m.free, 0));
    NoneFreeIff(m.free);
    assert SlotFor(g, f, bno) !in m.own && OwnedOnce(m0);
    FollowFaults(span, m0, SlotFor(g, f, bno), at);
  }

  /** An entry in use has its indirect block. */
  ghost predicate EntriesHang(m: Meta) {
    forall s :: s in m.own && s.Entry? ==> Indirect(s.file) in m.own
  }

  ghost predicate OwnedOnce(m: Meta) {
    forall s, s' :: s in m.own && s' in m.own && m.own[s] == m.own[s'] ==> s == s'
  }

  /** A disk that has run full, or a table that is missing. */
  lemma TurnFails(g: Geometry, span: nat, m: Meta, f: nat, bno: nat)
    requires MetaOk(span, m) && bno < g.ndirect + g.nindirect
    ensures var (m1, r) := GetBlock(g, span, m, f, bno);
      && (r.Err? ==> r == Err(-E_NO_DISK)) && (r.Err? || r == BadNumber ==> NoneFree(m1.free))
      && (r.FlushPanic? ==>
            r.block < |m.free| && m.free[r.block] && FlushPanics(m.cached, m.tables, span, r.block) && !m1.free[r.block])
  {
    var (m0, w) := Walk(g, span, m, f, bno, true);
    WalkKeeps(g, span, m, f, bno);
    WalkOutcome(g, span, m, f, bno);
    NoneFreeIff(m.free);
    if w.Ok? {
      FollowFails(span, m0, SlotFor(g, f, bno));
    }
  }

  lemma FollowFails(span: nat, m: Meta, s: Slot)
    requires MetaOk(span, m) && !s.Indirect?
    ensures var (m1, r) := Follow(span, m, s);
      && !r.Err? && (r == BadNumber ==> NoneFree(m1.free))
      && (r.FlushPanic? ==>
            r.block < |m.free| && m.free[r.block] && FlushPanics(m.cached, m.tables, span, r.block) && !m1.free[r.block])
  {
    NoneFreeIff(m.free);
  }

  // ----- the whole loop -----

  ghost predicate MetaInv(span: nat, m: Meta) {
    match m
    case Meta(_, _, _, _) => MetaOk(span, m) && OwnedOnce(m) && EntriesHang(m)
  }

  lemma ClaimInv(span: nat, m: Meta, s: Slot, b: nat)
    requires MetaInv(span, m) && s !in m.own && b < |m.free| && m.free[b] && (s.Entry? ==> Indirect(s.file) in m.own)
    ensures MetaInv(span, m.(own := m.own[s := b], free := m.free[b := false]))
  {
  }

  lemma TouchInv(span: nat, m: Meta, b: nat)
    requires MetaInv(span, m)
    ensures MetaInv(span, Touch(span, m, b))
  {
  }

  lemma AllocInv(span: nat, m: Meta)
    requires MetaInv(span, m)
    ensures MetaInv(span, Alloc(span, m).0)
  {
  }

  lemma WalkInv(g: Geometry, span: nat, m: Meta, f: nat, bno: nat)
    requires MetaInv(span, m)
    ensures MetaInv(span, Walk(g, span, m, f, bno, true).0)
  {
    var b := FirstFree(m.free, 0);
    AllocInv(span, m);
    NoneFreeIff(m.free);
    if Indirect(f) !in m.own && b < |m.free| {
      ClaimInv(span, m, Indirect(f), b);
      TouchInv(span, m.(own := m.own[Indirect(f) := b], free := m.free[b := false]), b);
    }
  }

  lemma FollowInv(span: nat, m: Meta, s: Slot)
    requires MetaInv(span, m) && (s.Entry? ==> Indirect(s.file) in m.own)
    ensures MetaInv(span, Follow(span, m, s).0)
  {
    var m1, b := AfterEntry(span, m, s), FirstFree(m.free, 0);
    if s.Entry? {
      TouchInv(span, m, m.own[Indirect(s.file)]);
    }
    AllocInv(span, m1);
    NoneFreeIff(m.free);
    if s !in m.own && b < |m.free| {
      ClaimInv(span, m1, s, b);
    }
  }

  lemma GetBlockInv(g: Geometry, span: nat, m: Meta, f: nat, bno: nat)
    requires MetaInv(span, m)
    ensures MetaInv(span, GetBlock(g, span, m, f, bno).0)
  {
    WalkInv(g, span, m, f, bno);
    if Walk(g, span, m, f, bno, true).1.Ok? {
      FollowInv(span, Walk(g, span, m, f, bno, true).0, SlotFor(g, f, bno));
    }
  }

  /** How one turn may end, from m at byte `at` of block bno. */
  ghost predicate TurnEnd(g: Geometry, span: nat, m: Meta, f: nat, bno: nat, at: nat, m1: Meta, r: Outcome)
    requires span > 0
  {
    match m
    case Meta(_, free, cached, tables) =>
      && MetaInv(span, m1) && Later(m, m1)
      && (r.Ok? ==> EntryReady(g, m1, f, bno + 1))
      && (r == FaultPanic ==> Misaligned(g, m, f, bno, at))
      && (Misaligned(g, m, f, bno, at) ==> r == FaultPanic || r.FlushPanic?)
      && (r.Err? ==> r.code == -E_NO_DISK) && (r.Err? || r == BadNumber ==> NoneFree(m1.free))
      && (r.FlushPanic? ==> r.block < |free| && free[r.block] && FlushPanics(cached, tables, span, r.block))
  }

  lemma TurnEnds(g: Geometry, span: nat, m: Meta, f: nat, bno: nat, at: nat)
    requires MetaInv(span, m) && bno < g.ndirect + g.nindirect
    ensures var (m1, r) := Turn(g, span, m, f, bno, at);
      TurnEnd(g, span, m, f, bno, at, m1, r)
  {
    var (m1, r) := GetBlock(g, span, m, f, bno);
    TurnFaults(g, span, m, f, bno, at);
    TurnFails(g, span, m, f, bno);
    GetBlockKeeps(g, span, m, f, bno);
    GetBlockInv(g, span, m, f, bno);
    if r.Ok? {
      TouchInv(span, m1, r.block);
    }
  }

  /** How a whole transfer may end. */
  ghost predicate ScanEnd(g: Geometry, span: nat, m: Meta, f: nat, bno: nat, at: nat, m': Meta, r: Outcome)
    requires span > 0
  {
    match m
    case Meta(_, free, cached, tables) =>
      && (r == FaultPanic ==> Misaligned(g, m, f, bno, at))
      && (Misaligned(g, m, f, bno, at) ==> r == FaultPanic || r.FlushPanic?)
      && (r.Err? ==> r.code == -E_NO_DISK) && (r.Err? || r == BadNumber ==> NoneFree(m'.free))
      && (r.FlushPanic? ==> r.block < |free| && free[r.block] && FlushPanics(cached, tables, span, r.block))
  }

  /** After an aligned turn nothing is misaligned any more. */
  lemma NextTurn(g: Geometry, span: nat, m: Meta, f: nat, bno: nat, at: nat, m1: Meta, b: nat, m': Meta, r: Outcome)
    requires span > 0 && TurnEnd(g, span, m, f, bno, at, m1, Ok(b))
    requires ScanEnd(g, span, m1, f, bno + 1, 0, m', r)
    ensures ScanEnd(g, span, m, f, bno, at, m', r)
  {
    assert !Misaligned(g, m, f, bno, at) && !Misaligned(g, m1, f, bno + 1, 0);
  }

  /** How a transfer ends. It faults only if it starts misaligned; started misaligned, it never
      gets past its first block; and every other ending is success, a full disk, or a free block
      under no page table. */
  lemma {:induction false} ScanEnds(g: Geometry, span: nat, m: Meta, f: nat, bno: nat, last: nat, at: nat)
    requires MetaInv(span, m) && bno <= last < g.ndirect + g.nindirect
    ensures var (m', r) := Scan(g, span, m, f, bno, last, at);
      ScanEnd(g, span, m, f, bno, at, m', r)
    decreases last - bno
  {
    var (m1, r) := Turn(g, span, m, f, bno, at);
    TurnEnds(g, span, m, f, bno, at);
    if r.Ok? && bno < last {
      ScanEnds(g, span, m1, f, bno + 1, last, 0);
      var (m', r') := Scan(g, span, m1, f, bno + 1, last, 0);
      NextTurn(g, span, m, f, bno, at, m1, r.block, m', r');
    } else {
      LastTurn(g, span, m, f, bno, at, m1, r);
    }
  }

  lemma LastTurn(g: Geometry, span: nat, m: Meta, f: nat, bno: nat, at: nat, m1: Meta, r: Outcome)
    requires span > 0 && TurnEnd(g, span, m, f, bno, at, m1, r)
    ensures ScanEnd(g, span, m, f, bno, at, m1, r)
  {
  }

  /** When no free block lies under a missing table, the cache stops a transfer if and only if it
      starts misaligned, and otherwise only a full disk can. */
  lemma ScanFaultsIff(g: Geometry, span: nat, m: Meta, f: nat, bno: nat, last: nat, at: nat, m': Meta, r: Outcome)
    requires MetaInv(span, m) && bno <= last < g.ndirect + g.nindirect && TablesReady(span, m)
    requires (m', r) == Scan(g, span, m, f, bno, last, at)
    ensures !r.FlushPanic?
    ensures r == FaultPanic <==> Misaligned(g, m, f, bno, at)
    ensures !r.Ok? && !Misaligned(g, m, f, bno, at) ==> NoneFree(m'.free) && (r == Err(-E_NO_DISK) || r == BadNumber)
  {
    ScanEnds(g, span, m, f, bno, last, at);
  }

  /** So a first byte written anywhere but at the start of a new file's first block is a panic,
      if the block it is given is not in the cache by chance. */
  lemma MidBlockFaults(g: Geometry, span: nat, m: Meta, f: nat, at: nat)
    requires MetaInv(span, m) && TablesReady(span, m) && g.ndirect > 0 && Direct(f, 0) !in m.own
    requires !NoneFree(m.free) && FirstFree(m.free, 0) !in m.cached && at != 0
    ensures Scan(g, span, m, f, 0, 0, at).1 == FaultPanic
  {
    var (m', r) := Scan(g, span, m, f, 0, 0, at);
    NoneFreeIff(m.free);
    ScanFaultsIff(g, span, m, f, 0, 0, at, m', r);
  }
}
