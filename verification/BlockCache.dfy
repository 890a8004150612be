/** fs/bc.c: the block cache, a page per disk block, faulted in on first use
    and written back by flush_block. */
module BlockCache {
  import opened Arith

  type Block = seq<nat>

  /** A cached page: its contents and the PTE_D bit. */
  datatype Page = Page(content: Block, dirty: bool)

  /** disk: what ide_read and ide_write see; page: the mapped cache pages;
      tables: the page tables of the cache region that exist (each covers
      span blocks); free: the bitmap. */
  datatype Cache = Cache(disk: seq<Block>, page: map<nat, Page>, tables: set<nat>, free: seq<bool>, span: nat)

  /** The page table that covers block b. */
  function TableOf(span: nat, b: nat): nat
    requires span > 0
  {
    Quot(b, span)
  }

  /** A page table covers span consecutive blocks. */
  lemma TableOfIs(span: nat, b: nat, t: nat)
    requires span > 0
    ensures TableOf(span, b) == t <==> t * span <= b < t * span + span
  {
    QuotRem(b, span);
    if t * span <= b < t * span + span {
      QuotientUnique(span, Quot(b, span), Rem(b, span), t, b - t * span);
    }
  }

  /** Every mapped page has its table, and a clean page equals its disk block. */
  ghost predicate Inv(c: Cache) {
    && c.span > 0 && |c.free| == |c.disk|
    && forall b :: b in c.page ==>
         b < |c.disk| && TableOf(c.span, b) in c.tables && (!c.page[b].dirty ==> c.page[b].content == c.disk[b])
  }

  /** The flat array of blocks that the cache and the disk together stand for. */
  ghost function View(c: Cache): (v: seq<Block>)
    ensures |v| == |c.disk|
    ensures forall b :: 0 <= b < |c.disk| ==> v[b] == if b in c.page then c.page[b].content else c.disk[b]
  {
    seq(|c.disk|, b requires 0 <= b < |c.disk| => if b in c.page then c.page[b].content else c.disk[b])
  }

  /** diskaddr does not panic. */
  predicate GoodBlock(c: Cache, b: nat) {
    0 < b < |c.disk|
  }

  // ----- bc_pgfault -----

  /** A fault at byte `at` of unmapped block b, when a frame can be had. The handler
      passes the faulting address itself, not rounded down, to its last sys_page_map,
      which rejects it unless it is page-aligned; and it panics on a free block. */
  predicate FaultPanics(free: seq<bool>, b: nat, at: nat) {
    b >= |free| || at != 0 || free[b]
  }

  function FaultIn(c: Cache, b: nat): Cache
    requires b < |c.disk| && c.span > 0
  {
    c.(page := c.page[b := Page(c.disk[b], false)], tables := c.tables + {TableOf(c.span, b)})
  }

  // ----- flush_block -----

  /** The test reads uvpt when the page is not mapped; without a page table
      there, that read is itself a fault outside the cache, and panics. */
  predicate FlushPanics(cached: set<nat>, tables: set<nat>, span: nat, b: nat)
    requires span > 0
  {
    b !in cached && TableOf(span, b) !in tables
  }

  function Flush(c: Cache, b: nat): Cache
    requires b < |c.disk|
  {
    if b in c.page then c.(disk := c.disk[b := c.page[b].content], page := c.page[b := c.page[b].(dirty := false)]) else c
  }

  // ----- runs -----

  datatype Op =
    | Fault(b: nat, at: nat)          // first touch of an unmapped block
    | Store(b: nat, row: Block)       // any store to a mapped page sets PTE_D
    | Writeback(b: nat)               // flush_block
    | Evict(b: nat)                   // sys_page_unmap of a page that is clean
    | Mark(b: nat, isFree: bool)      // a store to the bitmap, which is kept apart

  predicate Enabled(c: Cache, op: Op) {
    match op
    case Fault(b, at) => b !in c.page && c.span > 0 && !FaultPanics(c.free, b, at) && b < |c.disk|
    case Store(b, _) => b in c.page
    case Writeback(b) => GoodBlock(c, b) && c.span > 0 && !FlushPanics(c.page.Keys, c.tables, c.span, b)
    case Evict(b) => b in c.page && !c.page[b].dirty
    case Mark(b, _) => b < |c.free|
  }

  function Apply(c: Cache, op: Op): Cache
    requires Enabled(c, op)
  {
    match op
    case Fault(b, _) => FaultIn(c, b)
    case Store(b, row) => c.(page := c.page[b := Page(row, true)])
    case Writeback(b) => Flush(c, b)
    case Evict(b) => c.(page := c.page - {b})
    case Mark(b, isFree) => c.(free := c.free[b := isFree])
  }

  /** Only a store shows in the flat array. */
  function FlatApply(v: seq<Block>, op: Op): seq<Block> {
    match op
    case Store(b, row) => if b < |v| then v[b := row] else v
    case _ => v
  }

  /** Two caches over equally many blocks that agree block by block stand for the same array. */
  lemma SameView(c: Cache, v: seq<Block>)
    requires |v| == |c.disk|
    requires forall b :: 0 <= b < |v| ==> v[b] == if b in c.page then c.page[b].content else c.disk[b]
    ensures View(c) == v
  {
  }

  lemma QuietRefines(c: Cache, op: Op)
    requires Inv(c) && Enabled(c, op) && (op.Fault? || op.Evict? || op.Mark?)
    ensures Inv(Apply(c, op)) && View(Apply(c, op)) == View(c)
  {
    SameView(Apply(c, op), View(c));
  }

  lemma WritebackRefines(c: Cache, b: nat)
    requires Inv(c) && Enabled(c, Writeback(b))
    ensures Inv(Flush(c, b)) && View(Flush(c, b)) == View(c)
  {
    SameView(Flush(c, b), View(c));
  }

  lemma StoreRefines(c: Cache, b: nat, row: Block)
    requires Inv(c) && Enabled(c, Store(b, row))
    ensures Inv(Apply(c, Store(b, row))) && View(Apply(c, Store(b, row))) == View(c)[b := row]
  {
    SameView(Apply(c, Store(b, row)), View(c)[b := row]);
  }

  lemma StepRefines(c: Cache, op: Op)
    requires Inv(c) && Enabled(c, op)
    ensures Inv(Apply(c, op)) && View(Apply(c, op)) == FlatApply(View(c), op)
  {
    match op {
      case Store(b, row) => StoreRefines(c, b, row);
      case Writeback(b) => WritebackRefines(c, b);
      case _ => QuietRefines(c, op);
    }
  }

  /** What each operation does to the pages and to the disk. */
  lemma StepExact(c: Cache, op: Op, b: nat)
    requires Inv(c) && Enabled(c, op)
    ensures var c' := Apply(c, op);
      && (b in c'.page <==> if b == op.b && op.Fault? then true else if b == op.b && op.Evict? then false else b in c.page)
      && (b in c'.page && b == op.b && (op.Fault? || op.Writeback?) ==> !c'.page[b].dirty)
      && (b in c'.page && b == op.b && op.Store? ==> c'.page[b].dirty)
      && |c'.disk| == |c.disk|
      && (b < |c.disk| && (b != op.b || !op.Writeback?) ==> c'.disk[b] == c.disk[b])
      && (b < |c.disk| && b == op.b && op.Writeback? ==> c'.disk[b] == View(c)[b])
      && |c'.free| == |c.free| && (b < |c.free| ==> c'.free[b] == if b == op.b && op.Mark? then op.isFree else c.free[b])
  {
  }

  ghost function FlatRun(v: seq<Block>, ops: seq<Op>): seq<Block>
    decreases |ops|
  {
    if ops == [] then v else FlatApply(FlatRun(v, ops[..|ops| - 1]), ops[|ops| - 1])
  }

  ghost predicate Run(cs: seq<Cache>, ops: seq<Op>) {
    && |cs| == |ops| + 1
    && forall i {:trigger ops[i]} :: 0 <= i < |ops| ==> Enabled(cs[i], ops[i]) && cs[i + 1] == Apply(cs[i], ops[i])
  }

  /** Over every run, the cache stands for the array that the stores alone
      produce: fault-in, write-back and eviction of clean pages never show. */
  lemma {:induction false} CacheIsTransparent(cs: seq<Cache>, ops: seq<Op>, n: nat)
    requires Run(cs, ops) && Inv(cs[0]) && n < |cs|
    ensures Inv(cs[n]) && View(cs[n]) == FlatRun(View(cs[0]), ops[..n])
  {
    if n == 0 {
      assert ops[..0] == [];
    } else {
      CacheIsTransparent(cs, ops, n - 1);
      RunAt(cs, ops, n - 1);
      StepRefines(cs[n - 1], ops[n - 1]);
      FlatRunNext(View(cs[0]), ops, n - 1);
    }
  }

  lemma RunAt(cs: seq<Cache>, ops: seq<Op>, i: nat)
    requires Run(cs, ops) && i < |ops|
    ensures Enabled(cs[i], ops[i]) && cs[i + 1] == Apply(cs[i], ops[i])
  {
  }

  lemma FlatRunNext(v: seq<Block>, ops: seq<Op>, i: nat)
    requires i < |ops|
    ensures FlatRun(v, ops[..i + 1]) == FlatApply(FlatRun(v, ops[..i]), ops[i])
  {
    assert ops[..i + 1][..i] == ops[..i];
  }

  /** What a user of the cache sees, the blocks' contents, the bitmap and which pages and page tables
      are there, is what some run of the cache's operations from `start` leaves. */
  ghost predicate Backed(start: Cache, span: nat, blocks: seq<Block>, free: seq<bool>, cached: set<nat>, tables: set<nat>) {
    exists cs, ops :: Leads(start, cs, ops) && Seen(cs[|ops|], span, blocks, free, cached, tables)
  }

  ghost predicate Leads(start: Cache, cs: seq<Cache>, ops: seq<Op>) {
    Run(cs, ops) && cs[0] == start && Inv(start)
  }

  ghost predicate Seen(c: Cache, span: nat, blocks: seq<Block>, free: seq<bool>, cached: set<nat>, tables: set<nat>) {
    c.span == span && View(c) == blocks && c.free == free && c.page.Keys == cached && c.tables == tables
  }

  lemma RunGrows(start: Cache, cs: seq<Cache>, ops: seq<Op>, op: Op)
    requires Leads(start, cs, ops) && Enabled(cs[|ops|], op)
    ensures Leads(start, cs + [Apply(cs[|ops|], op)], ops + [op])
  {
    var cs', ops' := cs + [Apply(cs[|ops|], op)], ops + [op];
    forall i | 0 <= i < |ops'| ensures Enabled(cs'[i], ops'[i]) && cs'[i + 1] == Apply(cs'[i], ops'[i]) {
      if i < |ops| {
        RunAt(cs, ops, i);
      }
    }
  }

  /** One more operation, from any cache that shows what is seen. */
  lemma BackedNext(start: Cache, cs: seq<Cache>, ops: seq<Op>, op: Op)
    returns (c: Cache)
    requires Leads(start, cs, ops) && Enabled(cs[|ops|], op)
    ensures c == Apply(cs[|ops|], op) && Inv(cs[|ops|]) && Inv(c) && View(c) == FlatApply(View(cs[|ops|]), op)
    ensures Backed(start, c.span, View(c), c.free, c.page.Keys, c.tables)
  {
    c := Apply(cs[|ops|], op);
    CacheIsTransparent(cs, ops, |ops|);
    StepRefines(cs[|ops|], op);
    RunGrows(start, cs, ops, op);
    assert Seen((cs + [c])[|ops + [op]|], c.span, View(c), c.free, c.page.Keys, c.tables);
  }

  lemma BackedFault(start: Cache, span: nat, blocks: seq<Block>, free: seq<bool>, cached: set<nat>, tables: set<nat>, b: nat)
    requires Backed(start, span, blocks, free, cached, tables) && span > 0 && b !in cached && !FaultPanics(free, b, 0)
    ensures Backed(start, span, blocks, free, cached + {b}, tables + {TableOf(span, b)})
  {
    var cs, ops :| Leads(start, cs, ops) && Seen(cs[|ops|], span, blocks, free, cached, tables);
    CacheIsTransparent(cs, ops, |ops|);
    var c := BackedNext(start, cs, ops, Fault(b, 0));
    assert c.page.Keys == cached + {b};
  }

  lemma StoreSeen(c: Cache, b: nat, row: Block)
    requires b in c.page && b < |View(c)|
    ensures FlatApply(View(c), Store(b, row)) == View(c)[b := row]
    ensures var c' := Apply(c, Store(b, row)); (c'.page.Keys, c'.free, c'.tables, c'.span) == (c.page.Keys, c.free, c.tables, c.span)
  {
    assert c.page[b := Page(row, true)].Keys == c.page.Keys;
  }

  lemma BackedStore(start: Cache, span: nat, blocks: seq<Block>, free: seq<bool>, cached: set<nat>, tables: set<nat>,
                    b: nat, row: Block)
    requires Backed(start, span, blocks, free, cached, tables) && b in cached && b < |blocks|
    ensures Backed(start, span, blocks[b := row], free, cached, tables)
  {
    var cs, ops :| Leads(start, cs, ops) && Seen(cs[|ops|], span, blocks, free, cached, tables);
    var c := BackedNext(start, cs, ops, Store(b, row));
    StoreSeen(cs[|ops|], b, row);
    assert View(c) == blocks[b := row];
  }

  lemma BackedMark(start: Cache, span: nat, blocks: seq<Block>, free: seq<bool>, cached: set<nat>, tables: set<nat>,
                   b: nat, isFree: bool)
    requires Backed(start, span, blocks, free, cached, tables) && b < |free|
    ensures Backed(start, span, blocks, free[b := isFree], cached, tables)
  {
    var cs, ops :| Leads(start, cs, ops) && Seen(cs[|ops|], span, blocks, free, cached, tables);
    var c := BackedNext(start, cs, ops, Mark(b, isFree));
  }

  /** The same as a value: what is proved of the files does not depend on how the cache gets there. */
  type Backing = (seq<Block>, seq<bool>, set<nat>, set<nat>) -> bool

  ghost predicate IsBacking(backs: Backing, start: Cache, span: nat) {
    forall blocks, free, cached, tables {:trigger Backed(start, span, blocks, free, cached, tables)} ::
      backs(blocks, free, cached, tables) <==> Backed(start, span, blocks, free, cached, tables)
  }

  ghost function BackingOf(start: Cache, span: nat): (backs: Backing)
    ensures IsBacking(backs, start, span)
  {
    (blocks: seq<Block>, free: seq<bool>, cached: set<nat>, tables: set<nat>) =>
      Backed(start, span, blocks, free, cached, tables)
  }

  /** So the blocks seen are what the stores alone make of those at the start. */
  lemma BackedIsFlat(start: Cache, span: nat, blocks: seq<Block>, free: seq<bool>, cached: set<nat>, tables: set<nat>)
    requires Backed(start, span, blocks, free, cached, tables)
    ensures exists cs, ops ::
      Leads(start, cs, ops) && Seen(cs[|ops|], span, blocks, free, cached, tables) && blocks == FlatRun(View(start), ops)
  {
    var cs, ops :| Leads(start, cs, ops) && Seen(cs[|ops|], span, blocks, free, cached, tables);
    CacheIsTransparent(cs, ops, |ops|);
    assert ops[..|ops|] == ops;
    assert Leads(start, cs, ops) && Seen(cs[|ops|], span, blocks, free, cached, tables) && blocks == FlatRun(View(start), ops);
  }

  lemma BackedStart(start: Cache)
    requires Inv(start)
    ensures Backed(start, start.span, View(start), start.free, start.page.Keys, start.tables)
  {
    var ops: seq<Op> := [];
    assert Leads(start, [start], ops);
    assert Seen([start][|ops|], start.span, View(start), start.free, start.page.Keys, start.tables);
  }

  lemma BacksFault(backs: Backing, start: Cache, span: nat, blocks: seq<Block>, free: seq<bool>, cached: set<nat>,
                   tables: set<nat>, b: nat)
    requires IsBacking(backs, start, span) && backs(blocks, free, cached, tables)
    requires span > 0 && b !in cached && !FaultPanics(free, b, 0)
    ensures backs(blocks, free, cached + {b}, tables + {TableOf(span, b)})
  {
    assert Backed(start, span, blocks, free, cached, tables);
    BackedFault(start, span, blocks, free, cached, tables, b);
  }

  lemma BacksStore(backs: Backing, start: Cache, span: nat, blocks: seq<Block>, free: seq<bool>, cached: set<nat>,
                   tables: set<nat>, b: nat, row: Block)
    requires IsBacking(backs, start, span) && backs(blocks, free, cached, tables) && b in cached && b < |blocks|
    ensures backs(blocks[b := row], free, cached, tables)
  {
    assert Backed(start, span, blocks, free, cached, tables);
    BackedStore(start, span, blocks, free, cached, tables, b, row);
  }

  lemma BacksMark(backs: Backing, start: Cache, span: nat, blocks: seq<Block>, free: seq<bool>, cached: set<nat>,
                  tables: set<nat>, b: nat, isFree: bool)
    requires IsBacking(backs, start, span) && backs(blocks, free, cached, tables) && b < |free|
    ensures backs(blocks, free[b := isFree], cached, tables)
  {
    assert Backed(start, span, blocks, free, cached, tables);
    BackedMark(start, span, blocks, free, cached, tables, b, isFree);
  }

  /** Unmapping a page changes what the cache stands for exactly when the page
      differs from its disk block. */
  lemma UnmapKeepsViewIff(c: Cache, b: nat)
    requires Inv(c) && b in c.page
    ensures View(c.(page := c.page - {b})) == View(c) <==> c.page[b].content == c.disk[b]
  {
    var c' := c.(page := c.page - {b});
    assert View(c')[b] == c.disk[b] && View(c)[b] == c.page[b].content;
    if c.page[b].content == c.disk[b] {
      assert forall x :: 0 <= x < |c.disk| ==> View(c')[x] == View(c)[x];
    }
  }

  // ----- fs_sync -----

  class Server {
    var c: Cache

    /** bc_pgfault at byte `at` of block b; frame tells whether sys_page_alloc finds one.
        false is one of its panics. */
    method BcPgfault(b: nat, at: nat, frame: bool) returns (ok: bool)
      requires Inv(c) && b !in c.page
      modifies this
      ensures ok <==> frame && !FaultPanics(old(c).free, b, at)
      ensures ok ==> Inv(c) && View(c) == View(old(c)) && b in c.page && !c.page[b].dirty
    {
      if b >= |c.disk| || !frame {
        return false;
      }
      // sys_page_alloc and ide_read leave a dirty copy; sys_page_map(addr, addr) would clear PTE_D
      var before := c;
      c := c.(page := c.page[b := Page(c.disk[b], true)], tables := c.tables + {TableOf(c.span, b)});
      if at != 0 {
        return false;
      }
      c := c.(page := c.page[b := Page(c.disk[b], false)]);
      if c.free[b] {
        return false;
      }
      StepRefines(before, Fault(b, 0));
      assert c == Apply(before, Fault(b, 0));
      return true;
    }

    /** flush_block(diskaddr(b)): false is diskaddr's panic, or that of the test on uvpt. */
    method FlushBlock(b: nat) returns (ok: bool)
      requires Inv(c)
      modifies this
      ensures Inv(c) && View(c) == View(old(c)) && c.page.Keys == old(c).page.Keys && c.tables == old(c).tables
      ensures c.span == old(c).span && |c.disk| == |old(c).disk|
      ensures ok <==> 0 < b < |c.disk| && !FlushPanics(old(c).page.Keys, old(c).tables, old(c).span, b)
      ensures ok ==> c.disk[b] == View(c)[b] && (b in c.page ==> !c.page[b].dirty)
      ensures !ok ==> c == old(c)
      ensures forall x :: 0 <= x < |c.disk| && x != b ==> c.disk[x] == old(c).disk[x]
    {
      if b == 0 || b >= |c.disk| || (b !in c.page && TableOf(c.span, b) !in c.tables) {
        return false;
      }
      StepRefines(c, Writeback(b));
      c := Flush(c, b);
      return true;
    }

    /** fs_sync: every block but the first. It completes if and only if each
        block is cached or lies under an existing page table; then the disk
        equals the view, which has not changed. */
    method FsSync() returns (ok: bool)
      requires Inv(c)
      modifies this
      ensures Inv(c) && View(c) == View(old(c))
      ensures ok <==> forall b :: 0 < b < |old(c).disk| ==> !FlushPanics(old(c).page.Keys, old(c).tables, old(c).span, b)
      ensures ok ==> forall b :: 0 < b < |c.disk| ==> c.disk[b] == View(c)[b]
    {
      ghost var c0 := c;
      var i := 1;
      while i < |c.disk|
        invariant Inv(c) && View(c) == View(c0) && c.page.Keys == c0.page.Keys && c.tables == c0.tables
        invariant 1 <= i && c.span == c0.span && |c.disk| == |c0.disk|
        invariant forall b :: 0 < b < i && b < |c0.disk| ==> !FlushPanics(c0.page.Keys, c0.tables, c0.span, b)
        invariant forall b :: 0 < b < i && b < |c.disk| ==> c.disk[b] == View(c)[b]
      {
        ok := FlushBlock(i);
        if !ok {
          assert FlushPanics(c0.page.Keys, c0.tables, c0.span, i);
          return;
        }
        i := i + 1;
      }
      return true;
    }
  }
}
