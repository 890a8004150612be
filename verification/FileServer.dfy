/** fs/fs.c: block allocation, the walk from file block to slot, truncation
    and resizing, as code that updates the bitmap, the File records and the
    disk blocks in place, through the block cache. */
module FileServer {
  import opened Errors
  import opened Arith
  import opened Machine
  import opened FsSpec
  import opened FsDisk
  import opened FsMeta
  import BlockCache

  /** alloc_block's error as the unsigned number that file_get_block stores. */
  const BAD_NUMBER: nat := SIZE - 9

  /** Slots only appear, in file f only, and no owned data block changes. */
  ghost predicate Grows(f: nat, own: map<Slot, nat>, blocks: seq<Block>, own': map<Slot, nat>, blocks': seq<Block>) {
    && |blocks'| == |blocks|
    && (forall s :: s in own ==> s in own' && own'[s] == own[s])
    && (forall s :: s in own' && s.file != f ==> s in own)
    && (forall s :: s in own && !s.Indirect? && own[s] < |blocks| ==> blocks'[own[s]] == blocks[own[s]])
  }

  /** What a call loses: nothing, or the one block that alloc_block was flushing when it panicked. */
  ghost predicate Ended(v: Vol, v': Vol, r: Outcome) {
    match r
    case FlushPanic(b) => LostAlso(v, v', b)
    case _ => SameLost(v, v')
  }

  /** The ownership invariant is all that the exact conditions of module FsMeta need. */
  lemma InvMeta(g: Geometry, span: nat, v: Vol, cached: set<nat>, tables: set<nat>)
    requires Inv(g, v) && span > 0
    ensures MetaInv(span, Meta(v.own, v.free, cached, tables))
  {
    forall s | s in v.own ensures v.own[s] < |v.free| && !v.free[v.own[s]] && (s.Entry? ==> Indirect(s.file) in v.own) {
      assert SlotOk(g, v, s);
    }
  }

  class Server {
    const g: Geometry
    /** Blocks to a page table of the cache region. */
    const span: nat
    var files: seq<File>
    /** The cache when the server started. */
    ghost const start: BlockCache.Cache
    ghost const backs: BlockCache.Backing
    /** What reading a block shows, cached or not. */
    var blocks: seq<Block>
    /** One bit per block; set means free. */
    var bitmap: seq<bool>
    /** The blocks whose cache page is mapped, and the page tables of the cache region. */
    var cached: set<nat>
    var tables: set<nat>
    ghost var vol: Vol

    /** The server over a cache and a volume that fit together. */
    constructor (g: Geometry, span: nat, files: seq<File>, blocks: seq<Block>, bitmap: seq<bool>, cached: set<nat>,
                 tables: set<nat>, ghost start: BlockCache.Cache, ghost vol: Vol)
      requires BlockCache.Inv(start) && BlockCache.Seen(start, span, blocks, bitmap, cached, tables)
      requires Represents(g, files, blocks, vol.own) && Inv(g, vol) && vol.free == bitmap
      requires |vol.size| == |files| && forall f :: 0 <= f < |files| ==> vol.size[f] == files[f].size
      ensures Valid() && this.start == start && this.blocks == blocks && this.files == files && this.vol == vol
      ensures this.g == g && Now() == Meta(vol.own, bitmap, cached, tables)
    {
      BlockCache.BackedStart(start);
      this.g, this.span, this.files, this.blocks, this.bitmap := g, span, files, blocks, bitmap;
      this.cached, this.tables, this.start, this.vol := cached, tables, start, vol;
      backs := BlockCache.BackingOf(start, span);
    }

    ghost function Now(): Meta
      reads this
    {
      Meta(vol.own, bitmap, cached, tables)
    }

    /** blocks, the bitmap and the pages are what the cache's operations make of `start`. */
    ghost predicate Backed()
      reads this
    {
      BlockCache.IsBacking(backs, start, span) && backs(blocks, bitmap, cached, tables)
    }

    ghost predicate Linked()
      reads this
    {
      && Backed() && span > 0 && Represents(g, files, blocks, vol.own)
      && |bitmap| == |blocks| && vol.free == bitmap
      && |vol.size| == |files| && forall f :: 0 <= f < |files| ==> vol.size[f] == files[f].size
    }

    ghost predicate Valid()
      reads this
    {
      Linked() && Inv(g, vol)
    }

    /** No assignment of blocks to slots fits what is stored. */
    ghost predicate Broken()
      reads this
    {
      forall own: map<Slot, nat> {:trigger Represents(g, files, blocks, own)} :: !Represents(g, files, blocks, own)
    }

    /** A load or store at byte `at` of block b; false is bc_pgfault's panic, and then nothing has
        changed. It goes through exactly if b is cached, or is touched first at byte 0 and is a
        block in use; then b is cached, with its page table if it was not before. */
    method Access(b: nat, at: nat) returns (ok: bool)
      requires span > 0 && Backed()
      modifies this`cached, this`tables
      ensures Backed()
      ensures ok <==> b in old(cached) || (b < |bitmap| && !bitmap[b] && at == 0)
      ensures if ok && b !in old(cached)
              then cached == old(cached) + {b} && tables == old(tables) + {BlockCache.TableOf(span, b)}
              else cached == old(cached) && tables == old(tables)
    {
      if b in cached {
        return true;
      }
      if BlockCache.FaultPanics(bitmap, b, at) {
        return false;
      }
      BlockCache.BacksFault(backs, start, span, blocks, bitmap, cached, tables, b);
      cached := cached + {b};
      tables := tables + {BlockCache.TableOf(span, b)};
      return true;
    }

    /** alloc_block: the first free block, flushed once it is marked in use. */
    method AllocBlock() returns (r: Outcome)
      requires span > 0 && Backed()
      modifies this`bitmap
      ensures Backed()
      ensures (Now(), r) == Alloc(span, old(Now()))
    {
      for i := 0 to |bitmap|
        invariant bitmap == old(bitmap) && FirstFree(bitmap, 0) == FirstFree(bitmap, i)
      {
        if bitmap[i] {
          BlockCache.BacksMark(backs, start, span, blocks, bitmap, cached, tables, i, false);
          bitmap := bitmap[i := false];
          return if BlockCache.FlushPanics(cached, tables, span, i) then FlushPanic(i) else Ok(i);
        }
      }
      return Err(-E_NO_DISK);
    }

    /** The number a reachable slot holds, once it can be accessed. */
    method ReadSlot(s: Slot) returns (b: nat)
      requires Valid() && Reachable(g, files, vol.own, s)
      ensures b == if s in vol.own then vol.own[s] else 0
    {
      assert Shows(g, files, blocks, vol.own, s);
      match s
      case Direct(f, i) => b := files[f].direct[i];
      case Indirect(f) => b := files[f].indirect;
      case Entry(f, j) =>
        assert Shows(g, files, blocks, vol.own, Indirect(f));
        b := Get(blocks[files[f].indirect], 4 * j);
    }

    /** *ppdiskbno: an entry is accessed through the cache. */
    method LoadSlot(s: Slot) returns (ok: bool, b: nat)
      requires Valid() && !s.Indirect? && Reachable(g, files, vol.own, s)
      modifies this`cached, this`tables
      ensures Valid()
      ensures ok <==> !EntryPanics(old(Now()), s)
      ensures Now() == if ok then AfterEntry(span, old(Now()), s) else old(Now())
      ensures ok ==> b == if s in vol.own then vol.own[s] else 0
    {
      ok, b := true, 0;
      if s.Entry? {
        var t := ReadSlot(Indirect(s.file));
        ok := Access(t, 4 * s.j);
      }
      if ok {
        b := ReadSlot(s);
      }
    }

    /** *ppdiskbno = b, for an empty data slot and a block just allocated. */
    method FillSlot(s: Slot, b: nat)
      requires Backed() && Represents(g, files, blocks, vol.own) && Inv(g, vol) && |bitmap| == |blocks| && span > 0
      requires EntryCached(s)
      requires !s.Indirect? && Reachable(g, files, vol.own, s) && s !in vol.own && InSize(g, vol, s)
      requires b < |blocks| && vol.free == bitmap[b := true] && !bitmap[b]
      requires |vol.size| == |files| && forall f :: 0 <= f < |files| ==> vol.size[f] == files[f].size
      modifies this`files, this`blocks, this`vol
      ensures Valid() && vol == Claim(old(vol), s, b) && SameLost(old(vol), vol) && |files| == |old(files)|
      ensures Grows(s.file, old(vol.own), old(blocks), vol.own, blocks)
    {
      ClaimKeeps(g, vol, s, b);
      assert SlotOk(g, vol, Indirect(s.file));
      assert b != 0;
      PutSlot(s, b);
      vol := Claim(vol, s, b);
    }

    /** The page that holds s, if it is an entry, is in the cache. */
    ghost predicate EntryCached(s: Slot)
      reads this
    {
      s.Entry? && Indirect(s.file) in vol.own ==> vol.own[Indirect(s.file)] in cached
    }

    /** The store behind *ppdiskbno = b. */
    method PutSlot(s: Slot, b: nat)
      requires Backed() && EntryCached(s) && Represents(g, files, blocks, vol.own) && OneOwner(vol)
      requires !s.Indirect? && Reachable(g, files, vol.own, s) && b < SIZE
      requires |blocks| > 0 && (s.Entry? ==> vol.own[Indirect(s.file)] > 0)
      modifies this`files, this`blocks
      ensures Backed()
      ensures 0 < b < |blocks| ==> Represents(g, files, blocks, vol.own[s := b])
      ensures b == 0 ==> Represents(g, files, blocks, vol.own - {s})
      ensures b > 0 && b >= |blocks| ==> Broken()
      ensures SameBlocks(vol.own, old(blocks), blocks) && |files| == |old(files)|
      ensures forall f :: 0 <= f < |files| ==> files[f].size == old(files)[f].size
    {
      ghost var files0, blocks0 := files, blocks;
      match s {
        case Direct(f, i) =>
          if b < |blocks| {
            WriteDirect(g, files, blocks, vol.own, f, i, b);
          }
          files := SetDirect(files, f, i, b);
        case Entry(f, j) =>
          if b < |blocks| {
            WriteEntry(g, files, blocks, vol.own, f, j, b);
          }
          assert Shows(g, files, blocks, vol.own, Indirect(f));
          var t := files[f].indirect;
          BlockCache.BacksStore(backs, start, span, blocks, bitmap, cached, tables, t, Put(blocks[t], 4 * j, b));
          blocks := blocks[t := Put(blocks[t], 4 * j, b)];
      }
      if b > 0 && b >= |blocks| {
        NothingFits(g, files0, blocks0, vol.own, s, b, files, blocks);
      }
    }

    /** The allocating branch of file_block_walk: a cleared indirect block. */
    method AddIndirect(f: nat) returns (r: Outcome)
      requires Valid() && f < |files| && Indirect(f) !in vol.own && InSize(g, vol, Indirect(f))
      modifies this`files, this`blocks, this`bitmap, this`cached, this`tables, this`vol
      ensures Valid() && Ended(old(vol), vol, r) && |files| == |old(files)| && vol.size == old(vol.size)
      ensures var (m, a) := Alloc(span, old(Now()));
        r == (if a.Ok? then Ok(0) else a) &&
        Now() == if a.Ok? then Touch(span, m.(own := m.own[Indirect(f) := a.block]), a.block) else m
      ensures r.Ok? ==> Indirect(f) in vol.own
      ensures Grows(f, old(vol.own), old(blocks), vol.own, blocks)
    {
      NoEntries(g, vol, f);
      NoneFreeIff(bitmap);
      r := AllocBlock();
      if r.FlushPanic? {
        LoseOne(g, vol, r.block);
        vol := vol.(free := bitmap);
      }
      if !r.Ok? {
        return;
      }
      var b := r.block;
      ClaimKeeps(g, vol, Indirect(f), b);
      FreshBlock(g, vol, b);
      NewIndirect(g, files, blocks, vol.own, f, b);
      files := SetIndirect(files, f, b);
      vol := Claim(vol, Indirect(f), b);
      var ok := Access(b, 0);
      BlockCache.BacksStore(backs, start, span, blocks, bitmap, cached, tables, b, seq(BlkSize(g), x => 0));
      blocks := blocks[b := seq(BlkSize(g), x => 0)];
      return Ok(0);
    }

    /** file_block_walk: the slot of file block bno, if it can be reached. */
    method FileBlockWalk(f: nat, bno: nat, alloc: bool) returns (r: Outcome, s: Slot)
      requires Valid() && f < |files| && (alloc ==> bno < NumBlocks(g, files[f].size))
      modifies this`files, this`blocks, this`bitmap, this`cached, this`tables, this`vol
      ensures Valid() && Ended(old(vol), vol, r) && |files| == |old(files)| && vol.size == old(vol.size)
      ensures s == SlotFor(g, f, bno) && (Now(), r) == Walk(g, span, old(Now()), f, bno, alloc)
      ensures r.Ok? ==> Reachable(g, files, vol.own, s)
      ensures !alloc ==> vol == old(vol) && blocks == old(blocks) && files == old(files)
      ensures Grows(f, old(vol.own), old(blocks), vol.own, blocks)
    {
      s := SlotFor(g, f, bno);
      if bno >= g.ndirect + g.nindirect {
        return Err(-E_INVAL), s;
      }
      if bno < g.ndirect {
        return Ok(0), s;
      }
      var t := ReadSlot(Indirect(f));
      assert SlotOk(g, vol, Indirect(f));
      if t != 0 {
        return Ok(0), s;
      }
      if !alloc {
        return Err(-E_NOT_FOUND), s;
      }
      r := AddIndirect(f);
    }

    /** file_get_block: the disk block of file block bno, allocated if need be.
        The test for a full disk compares an unsigned number with zero, so a failed
        allocation of the data block leaves its error code in the slot and ends in
        diskaddr()'s panic; the stored state is sound if and only if that did not happen. */
    method FileGetBlock(f: nat, bno: nat) returns (r: Outcome)
      requires Valid() && f < |files| && bno < NumBlocks(g, files[f].size)
      modifies this`files, this`blocks, this`bitmap, this`cached, this`tables, this`vol
      ensures (Now(), r) == GetBlock(g, span, old(Now()), f, bno)
      ensures Valid() <==> r != BadNumber
      ensures r == BadNumber ==> Broken()
      ensures Ended(old(vol), vol, r) && |files| == |old(files)| && vol.size == old(vol.size)
      ensures r.Ok? ==> var s := SlotFor(g, f, bno);
        s in vol.own && vol.own[s] == r.block && r.block < |blocks| && Reachable(g, files, vol.own, s)
      ensures Grows(f, old(vol.own), old(blocks), vol.own, blocks)
    {
      var s;
      r, s := FileBlockWalk(f, bno, true);
      if !r.Ok? {
        return;
      }
      ghost var vol1, blocks1 := vol, blocks;
      r := BlockOf(s);
      EndedTwice(old(vol), vol1, vol, r);
      GrowsTwice(f, old(vol.own), old(blocks), vol1.own, blocks1, vol.own, blocks);
    }

    /** if (*pdiskbno == 0) *pdiskbno = alloc_block(); diskaddr(*pdiskbno). */
    method BlockOf(s: Slot) returns (r: Outcome)
      requires Valid() && !s.Indirect? && Reachable(g, files, vol.own, s) && InSize(g, vol, s)
      modifies this`files, this`blocks, this`bitmap, this`cached, this`tables, this`vol
      ensures (Now(), r) == Follow(span, old(Now()), s)
      ensures Valid() <==> r != BadNumber
      ensures r == BadNumber ==> Broken()
      ensures Ended(old(vol), vol, r) && |files| == |old(files)| && vol.size == old(vol.size)
      ensures r.Ok? ==> s in vol.own && vol.own[s] == r.block && r.block < |blocks| && Reachable(g, files, vol.own, s)
      ensures Grows(s.file, old(vol.own), old(blocks), vol.own, blocks)
    {
      var ok, b := LoadSlot(s);
      if !ok {
        return FaultPanic;
      }
      assert SlotOk(g, vol, s);
      if b != 0 {
        return Ok(b);
      }
      r := AllotBlock(s);
    }

    /** *pdiskbno = alloc_block(), whatever that returns. */
    method AllotBlock(s: Slot) returns (r: Outcome)
      requires Valid() && !s.Indirect? && s !in vol.own && Reachable(g, files, vol.own, s) && InSize(g, vol, s) && EntryCached(s)
      modifies this`files, this`blocks, this`bitmap, this`vol
      ensures var (m, a) := Alloc(span, old(Now()));
        r == (if a.Err? then BadNumber else a) && Now() == if a.Ok? then m.(own := m.own[s := a.block]) else m
      ensures Valid() <==> r != BadNumber
      ensures r == BadNumber ==> Broken()
      ensures Ended(old(vol), vol, r) && |files| == |old(files)| && vol.size == old(vol.size)
      ensures r.Ok? ==> r.block < |blocks| && Reachable(g, files, vol.own, s)
      ensures Grows(s.file, old(vol.own), old(blocks), vol.own, blocks)
    {
      assert SlotOk(g, vol, Indirect(s.file));
      NoneFreeIff(bitmap);
      r := AllocBlock();
      if r.Ok? {
        FillSlot(s, r.block);
      } else if r.FlushPanic? {
        LoseOne(g, vol, r.block);
        vol := vol.(free := bitmap);
      } else {
        PutSlot(s, BAD_NUMBER);
        r := BadNumber;
      }
    }

    /** file_free_block: drop file block bno if it is there; FaultPanic when its entry cannot be read. */
    method FileFreeBlock(f: nat, bno: nat) returns (r: Outcome)
      requires Valid() && f < |files|
      modifies this`files, this`blocks, this`bitmap, this`cached, this`tables, this`vol
      ensures Valid() && SameLost(old(vol), vol) && |files| == |old(files)| && vol.size == old(vol.size)
      ensures r == FaultPanic <==> CutPanics(g, old(Now()), f, bno)
      ensures r != FaultPanic ==> r == Walk(g, span, old(Now()), f, bno, false).1
      ensures r == FaultPanic ==> Now() == old(Now()) && vol == old(vol) && blocks == old(blocks) && files == old(files)
      ensures r != FaultPanic ==> vol.own == old(vol.own) - {SlotFor(g, f, bno)} && SameBlocks(vol.own, old(blocks), blocks)
      ensures r != FaultPanic ==> old(cached) <= cached && (EntryInUse(g, vol.own, f, bno) ==> vol.own[Indirect(f)] in cached)
    {
      var s;
      r, s := FileBlockWalk(f, bno, false);
      assert SlotOk(g, vol, s) && SlotOk(g, vol, Indirect(f));
      if r.Err? {
        assert vol.own == vol.own - {s};
        return;
      }
      var ok, b := LoadSlot(s);
      if !ok {
        return FaultPanic;
      }
      assert b == 0 ==> vol.own == vol.own - {s};
      if b != 0 {
        DropSlot(s, b);
      }
      return Ok(0);
    }

    /** free_block(*ptr); *ptr = 0. */
    method DropSlot(s: Slot, b: nat)
      requires Valid() && !s.Indirect? && s in vol.own && vol.own[s] == b && Reachable(g, files, vol.own, s) && EntryCached(s)
      modifies this`files, this`blocks, this`bitmap, this`vol
      ensures Valid() && SameLost(old(vol), vol) && |files| == |old(files)| && vol == Release(old(vol), s)
      ensures SameBlocks(vol.own, old(blocks), blocks)
    {
      assert SlotOk(g, vol, s) && SlotOk(g, vol, Indirect(s.file));
      ReleaseKeeps(g, vol, s);
      BlockCache.BacksMark(backs, start, span, blocks, bitmap, cached, tables, b, true);
      bitmap := bitmap[b := true];
      PutSlot(s, 0);
      vol := Release(vol, s);
    }

    /** file_truncate_blocks's loop: free the data blocks [from, to) of file f. It panics, at
        once, exactly when it starts in the middle of an indirect block that is not cached. */
    method FreeRange(f: nat, from: nat, to: nat) returns (ok: bool)
      requires Valid() && f < |files| && from <= to
      modifies this`files, this`blocks, this`bitmap, this`cached, this`tables, this`vol
      ensures Valid() && SameLost(old(vol), vol) && |files| == |old(files)| && vol.size == old(vol.size)
      ensures ok <==> !(from < to && CutPanics(g, old(Now()), f, from))
      ensures !ok ==> Now() == old(Now()) && vol == old(vol) && blocks == old(blocks) && files == old(files)
      ensures ok ==> vol.own == CutData(g, old(vol.own), f, from, to) && SameBlocks(vol.own, old(blocks), blocks)
      ensures from == to ==> Now() == old(Now())
    {
      ghost var vol0 := vol;
      assert CutData(g, vol0.own, f, from, from) == vol0.own;
      for bno := from to to
        invariant Valid() && SameLost(vol0, vol) && |files| == |old(files)| && vol.size == vol0.size
        invariant vol.own == CutData(g, vol0.own, f, from, bno)
        invariant SameBlocks(vol.own, old(blocks), blocks)
        invariant bno == from ==> Now() == old(Now()) && vol == vol0 && blocks == old(blocks) && files == old(files)
        invariant from < bno ==> !CutPanics(g, old(Now()), f, from) && !CutPanics(g, Now(), f, bno)
      {
        ghost var vol1, blocks1 := vol, blocks;
        var r := FileFreeBlock(f, bno);
        if r == FaultPanic {
          return false;
        }
        SameLostTwice(vol0, vol1, vol);
        CutStep(g, vol0, f, from, bno);
        SameBlocksTwice(vol1.own, vol.own, old(blocks), blocks1, blocks);
      }
      return true;
    }

    /** file_truncate_blocks: afterwards f has no slot that serves a block
        beyond newsize, the indirect block included; all other slots stay. */
    method FileTruncateBlocks(f: nat, newsize: nat) returns (ok: bool)
      requires Valid() && f < |files| && newsize <= files[f].size
      modifies this`files, this`blocks, this`bitmap, this`cached, this`tables, this`vol
      ensures Valid() && SameLost(old(vol), vol) && |files| == |old(files)| && vol.size == old(vol.size)
      ensures ok <==> !ShrinkPanics(g, old(Now()), f, old(files[f].size), newsize)
      ensures !ok ==> Now() == old(Now()) && vol == old(vol) && blocks == old(blocks) && files == old(files)
      ensures ok ==> vol.own == Cut(g, old(vol.own), f, NumBlocks(g, newsize)) && SameBlocks(vol.own, old(blocks), blocks)
    {
      var oldBlocks, newBlocks := NumBlocks(g, files[f].size), NumBlocks(g, newsize);
      DivMono(BlkSize(g), newsize + BlkSize(g) - 1, files[f].size + BlkSize(g) - 1);
      ok := FreeRange(f, newBlocks, oldBlocks);
      if !ok {
        return;
      }
      ghost var vol1, blocks1 := vol, blocks;
      CutDataAll(g, old(vol), f, newBlocks);
      assert Shows(g, files, blocks, vol.own, Indirect(f)) && SlotOk(g, vol, Indirect(f));
      if newBlocks <= g.ndirect && files[f].indirect != 0 {
        DropIndirect(f);
        SameLostTwice(old(vol), vol1, vol);
        SameBlocksTwice(vol1.own, vol.own, old(blocks), blocks1, blocks);
      }
    }

    /** free_block(f_indirect); f_indirect = 0. */
    method DropIndirect(f: nat)
      requires Valid() && f < |files| && Indirect(f) in vol.own && forall j :: Entry(f, j) !in vol.own
      modifies this`files, this`bitmap, this`vol
      ensures Valid() && SameLost(old(vol), vol) && |files| == |old(files)| && vol.size == old(vol.size)
      ensures vol.own == old(vol.own) - {Indirect(f)}
    {
      assert Shows(g, files, blocks, vol.own, Indirect(f)) && SlotOk(g, vol, Indirect(f));
      ReleaseKeeps(g, vol, Indirect(f));
      ClearIndirect(g, files, blocks, vol.own, f);
      BlockCache.BacksMark(backs, start, span, blocks, bitmap, cached, tables, files[f].indirect, true);
      bitmap := bitmap[files[f].indirect := true];
      files := SetIndirect(files, f, 0);
      vol := Release(vol, Indirect(f));
    }

    /** file_set_size: shrinking frees exactly the blocks beyond the new size. It panics, with
        nothing changed, exactly when the cut falls inside an indirect block that is not cached. */
    method FileSetSize(f: nat, newsize: nat) returns (ok: bool)
      requires Valid() && f < |files|
      modifies this`files, this`blocks, this`bitmap, this`cached, this`tables, this`vol
      ensures Valid() && SameLost(old(vol), vol) && |files| == |old(files)|
      ensures ok <==> !ShrinkPanics(g, old(Now()), f, old(files[f].size), newsize)
      ensures !ok ==> Now() == old(Now()) && vol == old(vol) && blocks == old(blocks) && files == old(files)
      ensures ok ==> vol.size == old(vol.size)[f := newsize]
      ensures ok ==> vol.own == if newsize < old(files[f].size) then Cut(g, old(vol.own), f, NumBlocks(g, newsize)) else old(vol.own)
      ensures ok ==> SameBlocks(vol.own, old(blocks), blocks)
      ensures newsize >= old(files[f].size) ==> ok && Now() == old(Now())
    {
      if files[f].size > newsize {
        ok := FileTruncateBlocks(f, newsize);
        if !ok {
          return;
        }
      } else {
        DivMono(BlkSize(g), files[f].size + BlkSize(g) - 1, newsize + BlkSize(g) - 1);
      }
      ghost var vol1 := vol;
      forall s | s in vol.own && s.file == f ensures Serves(g, s) < NumBlocks(g, newsize) {
        assert SlotOk(g, vol, s);
      }
      ResizeKeepsIff(g, vol, f, newsize);
      WriteSize(g, files, blocks, vol.own, f, newsize);
      files := SetFileSize(files, f, newsize);
      vol := Resize(vol, f, newsize);
      SameLostTwice(old(vol), vol1, vol);
      return true;
    }
  }

  /** What the server shows as its disk blocks is what a run of the block cache leads to: every block
      was brought in, stored to and written back through it, and the stores alone make the contents. */
  lemma CacheBehind(fs: Server)
    requires fs.Valid()
    ensures exists cs, ops ::
      && BlockCache.Leads(fs.start, cs, ops)
      && BlockCache.Seen(cs[|ops|], fs.span, fs.blocks, fs.bitmap, fs.cached, fs.tables)
      && fs.blocks == BlockCache.FlatRun(BlockCache.View(fs.start), ops)
  {
    assert BlockCache.Backed(fs.start, fs.span, fs.blocks, fs.bitmap, fs.cached, fs.tables);
    BlockCache.BackedIsFlat(fs.start, fs.span, fs.blocks, fs.bitmap, fs.cached, fs.tables);
  }

  /** File block bno has an entry in an indirect block. */
  predicate EntryInUse(g: Geometry, own: map<Slot, nat>, f: nat, bno: nat) {
    g.ndirect <= bno < g.ndirect + g.nindirect && Indirect(f) in own
  }

  /** Dropping file block bno would be a first touch inside its indirect block. */
  predicate CutPanics(g: Geometry, m: Meta, f: nat, bno: nat) {
    bno != g.ndirect && EntryInUse(g, m.own, f, bno) && m.own[Indirect(f)] !in m.cached
  }

  predicate ShrinkPanics(g: Geometry, m: Meta, f: nat, size: nat, newsize: nat)
    requires g.nindirect > 0
  {
    NumBlocks(g, newsize) < NumBlocks(g, size) && CutPanics(g, m, f, NumBlocks(g, newsize))
  }

  /** A slot holding a number beyond the disk fits no assignment of blocks. */
  lemma NothingFits(g: Geometry, files: seq<File>, blocks: seq<Block>, own: map<Slot, nat>, s: Slot, b: nat,
                    files': seq<File>, blocks': seq<Block>)
    requires Represents(g, files, blocks, own) && !s.Indirect? && Reachable(g, files, own, s) && |blocks| <= b && 0 < b < SIZE
    requires s.Entry? ==> own[Indirect(s.file)] > 0
    requires match s
      case Direct(f, i) => |files[f].direct| == g.ndirect && files' == SetDirect(files, f, i, b) && blocks' == blocks
      case Entry(f, j) =>
        var t := own[Indirect(f)];
        files' == files && t < |blocks| && |blocks[t]| == BlkSize(g) && blocks' == blocks[t := Put(blocks[t], 4 * j, b)]
      case _ => false
    ensures forall own': map<Slot, nat> {:trigger Represents(g, files', blocks', own')} :: !Represents(g, files', blocks', own')
  {
    forall own': map<Slot, nat> | Represents(g, files', blocks', own') ensures false {
      assert Shows(g, files', blocks', own', s) && Shows(g, files', blocks', own', Indirect(s.file));
      assert Shows(g, files, blocks, own, Indirect(s.file));
      if s.Entry? {
        GetPutSame(blocks[own[Indirect(s.file)]], 4 * s.j, b);
      }
    }
  }

  lemma EndedTwice(v: Vol, v1: Vol, v2: Vol, r: Outcome)
    requires SameLost(v, v1) && Ended(v1, v2, r)
    ensures Ended(v, v2, r)
  {
    forall x: nat ensures Lost(v, x) <==> Lost(v1, x) {
    }
  }

  /** A file without an indirect block has no entries. */
  lemma NoEntries(g: Geometry, v: Vol, f: nat)
    requires Inv(g, v) && Indirect(f) !in v.own
    ensures forall j :: Entry(f, j) !in v.own
  {
    forall j ensures Entry(f, j) !in v.own {
      assert SlotOk(g, v, Entry(f, j));
    }
  }

  lemma FreshBlock(g: Geometry, v: Vol, b: nat)
    requires Inv(g, v) && b < |v.free| && v.free[b]
    ensures b != 0 && forall s :: s in v.own ==> v.own[s] != b
  {
    forall s | s in v.own ensures v.own[s] != b {
      assert SlotOk(g, v, s);
    }
  }

  lemma GrowsTwice(f: nat, own: map<Slot, nat>, blocks: seq<Block>, own1: map<Slot, nat>, blocks1: seq<Block>,
                   own2: map<Slot, nat>, blocks2: seq<Block>)
    requires Grows(f, own, blocks, own1, blocks1) && Grows(f, own1, blocks1, own2, blocks2)
    ensures Grows(f, own, blocks, own2, blocks2)
  {
  }

  lemma SameLostTwice(v: Vol, v1: Vol, v2: Vol)
    requires SameLost(v, v1) && SameLost(v1, v2)
    ensures SameLost(v, v2)
  {
    forall b: nat ensures Lost(v, b) <==> Lost(v2, b) {
      assert Lost(v, b) <==> Lost(v1, b);
    }
  }

  /** The data blocks that own names are as before. */
  ghost predicate SameBlocks(own: map<Slot, nat>, blocks: seq<Block>, blocks': seq<Block>) {
    |blocks'| == |blocks| && forall s :: s in own && !s.Indirect? && own[s] < |blocks| ==> blocks'[own[s]] == blocks[own[s]]
  }

  lemma SameBlocksTwice(own1: map<Slot, nat>, own2: map<Slot, nat>, blocks: seq<Block>, blocks1: seq<Block>, blocks2: seq<Block>)
    requires SameBlocks(own1, blocks, blocks1) && SameBlocks(own2, blocks1, blocks2)
    requires forall s :: s in own2 ==> s in own1 && own1[s] == own2[s]
    ensures SameBlocks(own2, blocks, blocks2)
  {
  }

  /** own without the data slots of f that serve blocks [from, to). */
  ghost function CutData(g: Geometry, own: map<Slot, nat>, f: nat, from: nat, to: nat): map<Slot, nat> {
    own - set s | s in own && s.file == f && !s.Indirect? && from <= Serves(g, s) < to
  }

  lemma CutStep(g: Geometry, v: Vol, f: nat, from: nat, bno: nat)
    requires Inv(g, v) && from <= bno
    ensures CutData(g, v.own, f, from, bno + 1) == CutData(g, v.own, f, from, bno) - {SlotFor(g, f, bno)}
  {
    forall s | s in v.own ensures s.file == f && !s.Indirect? && Serves(g, s) == bno <==> s == SlotFor(g, f, bno) {
      assert SlotOk(g, v, s);
    }
  }

  /** own without the slots of f that serve block n or a later one. */
  ghost function Cut(g: Geometry, own: map<Slot, nat>, f: nat, n: nat): map<Slot, nat> {
    own - set s | s in own && s.file == f && n <= Serves(g, s)
  }

  /** Once all data slots beyond n are gone, only the indirect pointer can be left. */
  lemma CutDataAll(g: Geometry, v: Vol, f: nat, n: nat)
    requires Inv(g, v) && f < |v.size|
    ensures var own := CutData(g, v.own, f, n, NumBlocks(g, v.size[f]));
      if n <= g.ndirect then (forall j :: Entry(f, j) !in own) && Cut(g, v.own, f, n) == own - {Indirect(f)}
      else Cut(g, v.own, f, n) == own
  {
    forall s | s in v.own ensures s.file == f ==> Serves(g, s) < NumBlocks(g, v.size[f]) {
      assert SlotOk(g, v, s);
    }
  }
}
