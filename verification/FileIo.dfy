/** file_read and file_write of fs/fs.c, against pread and pwrite on a
    sequence of bytes. */
module FileIo {
  import opened Errors
  import opened Options
  import opened Arith
  import opened FsSpec
  import opened FsDisk
  import opened FsMeta
  import opened FileServer
  import BlockCache

  /** The byte at pos of file f; None in a block that has never been allocated. */
  ghost function Byte(g: Geometry, own: map<Slot, nat>, blocks: seq<Block>, f: nat, pos: nat): Option<nat>
    requires g.nindirect > 0
  {
    var s := SlotFor(g, f, Quot(pos, BlkSize(g)));
    if s in own && own[s] < |blocks| && Rem(pos, BlkSize(g)) < |blocks[own[s]]|
    then Some(blocks[own[s]][Rem(pos, BlkSize(g))]) else None
  }

  /** Allocating blocks for f changes no byte that existed, and no other file at all. */
  lemma GrowsByte(g: Geometry, f: nat, own: map<Slot, nat>, blocks: seq<Block>, own': map<Slot, nat>, blocks': seq<Block>,
                  f': nat, pos: nat)
    requires g.nindirect > 0 && Grows(f, own, blocks, own', blocks')
    ensures Byte(g, own, blocks, f', pos).Some? || f' != f ==> Byte(g, own', blocks', f', pos) == Byte(g, own, blocks, f', pos)
  {
    var s := SlotFor(g, f', Quot(pos, BlkSize(g)));
    assert s in own ==> s in own' && own'[s] == own[s];
  }

  /** A transfer is done, or stopped by what stopped one of its blocks. */
  datatype IoResult = Done(count: nat) | Stopped(why: Outcome)

  /** The first n bytes of buf are f's bytes from offset on. */
  ghost predicate Holds(g: Geometry, own: map<Slot, nat>, blocks: seq<Block>, f: nat, offset: nat, buf: seq<nat>, n: nat)
    requires g.nindirect > 0
  {
    n <= |buf| && forall k {:trigger buf[k]} :: 0 <= k < n ==> Byte(g, own, blocks, f, offset + k) == Some(buf[k])
  }

  lemma GrowsHolds(g: Geometry, f: nat, own: map<Slot, nat>, blocks: seq<Block>, own': map<Slot, nat>, blocks': seq<Block>,
                   offset: nat, buf: seq<nat>, n: nat)
    requires g.nindirect > 0 && Grows(f, own, blocks, own', blocks') && Holds(g, own, blocks, f, offset, buf, n)
    ensures Holds(g, own', blocks', f, offset, buf, n)
  {
    forall k | 0 <= k < n ensures Byte(g, own', blocks', f, offset + k) == Some(buf[k]) {
      GrowsByte(g, f, own, blocks, own', blocks', f, offset + k);
    }
  }

  /** One chunk, copied out of one block. */
  lemma ChunkRead(g: Geometry, own: map<Slot, nat>, blocks: seq<Block>, f: nat, offset: nat, buf: seq<nat>, n: nat)
    requires g.nindirect > 0 && Holds(g, own, blocks, f, offset, buf, |buf|)
    requires Rem(offset + |buf|, BlkSize(g)) + n <= BlkSize(g)
    requires var s := SlotFor(g, f, Quot(offset + |buf|, BlkSize(g)));
      s in own && own[s] < |blocks| && |blocks[own[s]]| == BlkSize(g)
    ensures var pos := offset + |buf|; var row := blocks[own[SlotFor(g, f, Quot(pos, BlkSize(g)))]];
      var at := Rem(pos, BlkSize(g));
      Holds(g, own, blocks, f, offset, buf + row[at..at + n], |buf| + n)
  {
    var pos := offset + |buf|;
    var row, at := blocks[own[SlotFor(g, f, Quot(pos, BlkSize(g)))]], Rem(pos, BlkSize(g));
    var buf' := buf + row[at..at + n];
    forall k | 0 <= k < |buf| + n ensures Byte(g, own, blocks, f, offset + k) == Some(buf'[k]) {
      if k < |buf| {
        assert buf'[k] == buf[k];
      } else {
        SameBlock(BlkSize(g), pos, k - |buf|);
        assert offset + k == pos + (k - |buf|);
        assert buf'[k] == row[at + (k - |buf|)];
      }
    }
  }

  lemma ReadOn(g: Geometry, f: nat, own: map<Slot, nat>, blocks: seq<Block>, own': map<Slot, nat>, blocks': seq<Block>,
               offset: nat, buf: seq<nat>, n: nat)
    requires g.nindirect > 0 && Grows(f, own, blocks, own', blocks') && Holds(g, own, blocks, f, offset, buf, |buf|)
    requires Rem(offset + |buf|, BlkSize(g)) + n <= BlkSize(g)
    requires var s := SlotFor(g, f, Quot(offset + |buf|, BlkSize(g)));
      s in own' && own'[s] < |blocks'| && |blocks'[own'[s]]| == BlkSize(g)
    ensures var pos := offset + |buf|; var row := blocks'[own'[SlotFor(g, f, Quot(pos, BlkSize(g)))]];
      var at := Rem(pos, BlkSize(g));
      Holds(g, own', blocks', f, offset, buf + row[at..at + n], |buf| + n)
  {
    GrowsHolds(g, f, own, blocks, own', blocks', offset, buf, |buf|);
    ChunkRead(g, own', blocks', f, offset, buf, n);
  }

  function Min(a: nat, b: nat): nat {
    if a <= b then a else b
  }

  /** How the transfer of n bytes at offset ends, from m: module FsMeta's loop over its blocks. */
  ghost function Transfer(g: Geometry, span: nat, m: Meta, f: nat, offset: nat, n: nat): (Meta, Outcome)
    requires span > 0 && g.nindirect > 0 && n > 0
  {
    Blocks(g, span, m, f, Quot(offset, BlkSize(g)), Quot(offset + n - 1, BlkSize(g)), Rem(offset, BlkSize(g)))
  }

  function Blocks(g: Geometry, span: nat, m: Meta, f: nat, bno: nat, last: nat, at: nat): (Meta, Outcome)
    requires span > 0
  {
    if bno <= last then Scan(g, span, m, f, bno, last, at) else (m, Ok(0))
  }

  /** A turn, as a value: what is proved of the loop below does not depend on what a turn does. */
  type TurnOf = (Meta, nat, nat) -> (Meta, Outcome)

  ghost predicate IsTurn(turn: TurnOf, g: Geometry, span: nat, f: nat)
    requires span > 0
  {
    forall m: Meta, bno: nat, at: nat {:trigger Turn(g, span, m, f, bno, at)} ::
      turn(m, bno, at) == Turn(g, span, m, f, bno, at)
  }

  ghost function Loop(turn: TurnOf, m: Meta, bno: nat, last: nat, at: nat): (Meta, Outcome)
    decreases last - bno
  {
    var (m1, o) := turn(m, bno, at);
    if !o.Ok? || last <= bno then (m1, o) else Loop(turn, m1, bno + 1, last, 0)
  }

  lemma {:induction false} LoopIsScan(turn: TurnOf, g: Geometry, span: nat, m: Meta, f: nat, bno: nat, last: nat, at: nat)
    requires span > 0 && bno <= last && IsTurn(turn, g, span, f)
    ensures Loop(turn, m, bno, last, at) == Scan(g, span, m, f, bno, last, at)
    decreases last - bno
  {
    var (m1, o) := Turn(g, span, m, f, bno, at);
    if o.Ok? && bno < last {
      LoopIsScan(turn, g, span, m1, f, bno + 1, last, 0);
    }
  }

  lemma QuotMono(b: nat, x: nat, y: nat)
    requires b > 0 && x <= y
    ensures Quot(x, b) <= Quot(y, b)
  {
    QuotIsDiv(x, b);
    QuotIsDiv(y, b);
    DivMono(b, x, y);
  }

  /** After a chunk of k bytes: it was the last, or the next one starts the next block. */
  lemma NextChunk(b: nat, pos: nat, n: nat, k: nat)
    requires b > 0 && 0 < k <= n && k == Min(b - Rem(pos, b), n)
    ensures k == n ==> Quot(pos + n - 1, b) == Quot(pos, b)
    ensures k < n ==> Quot(pos + k, b) == Quot(pos, b) + 1 && Rem(pos + k, b) == 0 && Quot(pos, b) < Quot(pos + n - 1, b)
  {
    if k == n {
      SameBlock(b, pos, n - 1);
    } else {
      NextBlock(b, pos, k);
      QuotMono(b, pos + k, pos + n - 1);
    }
  }

  lemma NextBlock(b: nat, pos: nat, k: nat)
    requires b > 0 && k == b - Rem(pos, b)
    ensures Quot(pos + k, b) == Quot(pos, b) + 1 && Rem(pos + k, b) == 0
  {
    var q, r, q', r' := Quot(pos, b), Rem(pos, b), Quot(pos + k, b), Rem(pos + k, b);
    QuotRem(pos, b);
    QuotRem(pos + k, b);
    assert (q + 1) * b == q * b + b;
    QuotientUnique(b, q', r', q + 1, 0);
  }

  /** k bytes at offset are what pread returns of a file of `size` bytes: no more than asked for, none
      beyond the end, and fewer than asked for only at the end. */
  predicate PreadLength(size: nat, count: nat, offset: nat, k: nat) {
    k <= count && (k > 0 ==> offset + k <= size) && (k < count ==> offset + k >= size)
  }

  function ReadCount(size: nat, count: nat, offset: nat): (k: nat)
    ensures PreadLength(size, count, offset, k)
  {
    if offset >= size then 0 else Min(count, size - offset)
  }

  /** One turn of the loop over blocks bno to last, from m0 to now: what is left of it. */
  ghost predicate StepOf(turn: TurnOf, m0: Meta, bno: nat, last: nat, at: nat, r: IoResult, now: Meta) {
    match r
    case Stopped(why) => Loop(turn, m0, bno, last, at) == (now, why)
    case Done(_) =>
      if bno == last then Loop(turn, m0, bno, last, at).0 == now && Loop(turn, m0, bno, last, at).1.Ok?
      else Loop(turn, m0, bno, last, at) == Loop(turn, now, bno + 1, last, 0)
  }

  lemma TurnIsStep(turn: TurnOf, m0: Meta, bno: nat, last: nat, at: nat, o: Outcome, k: nat, now: Meta)
    requires bno <= last && (now, o) == turn(m0, bno, at)
    ensures StepOf(turn, m0, bno, last, at, Chunk(o, k), now)
  {
  }

  function Chunk(o: Outcome, k: nat): IoResult {
    if o.Ok? then Done(k) else Stopped(o)
  }

  /** pos / BLKSIZE and pos % BLKSIZE. */
  method Locate(blk: nat, pos: nat) returns (bno: nat, at: nat)
    requires blk > 0
    ensures bno == Quot(pos, blk) && at == Rem(pos, blk)
  {
    QuotIsDiv(pos, blk);
    return pos / blk, pos % blk;
  }

  /** file_get_block, and the first byte that memmove touches. */
  method OpenChunk(fs: Server, f: nat, pos: nat) returns (r: Outcome)
    requires fs.Valid() && f < |fs.files| && pos < fs.files[f].size
    modifies fs`files, fs`blocks, fs`bitmap, fs`cached, fs`tables, fs`vol
    ensures |fs.files| == |old(fs.files)| && fs.vol.size == old(fs.vol.size)
    ensures (fs.Now(), r) == Turn(fs.g, fs.span, old(fs.Now()), f, Quot(pos, BlkSize(fs.g)), Rem(pos, BlkSize(fs.g)))
    ensures fs.Valid() <==> r != BadNumber
    ensures Ended(old(fs.vol), fs.vol, r)
    ensures r.Ok? ==> var s := SlotFor(fs.g, f, Quot(pos, BlkSize(fs.g)));
      r.block in fs.cached && s in fs.vol.own && fs.vol.own[s] == r.block && r.block < |fs.blocks| && |fs.blocks[r.block]| == BlkSize(fs.g)
    ensures Grows(f, old(fs.vol.own), old(fs.blocks), fs.vol.own, fs.blocks)
  {
    var blk := BlkSize(fs.g);
    InBlocks(blk, pos, fs.files[f].size);
    var bno, at := Locate(blk, pos);
    r := fs.FileGetBlock(f, bno);
    if r.Ok? {
      var ok := fs.Access(r.block, at);
      if !ok {
        return FaultPanic;
      }
    }
  }

  /** The same, as a step of the loop over blocks bno to last. */
  method OpenStep(fs: Server, f: nat, pos: nat, ghost bno: nat, ghost last: nat, ghost at: nat, ghost k: nat,
                  ghost turn: TurnOf) returns (o: Outcome)
    requires fs.Valid() && f < |fs.files| && pos < fs.files[f].size && bno <= last && IsTurn(turn, fs.g, fs.span, f)
    requires bno == Quot(pos, BlkSize(fs.g)) && at == Rem(pos, BlkSize(fs.g))
    modifies fs`files, fs`blocks, fs`bitmap, fs`cached, fs`tables, fs`vol
    ensures |fs.files| == |old(fs.files)| && fs.vol.size == old(fs.vol.size)
    ensures StepOf(turn, old(fs.Now()), bno, last, at, Chunk(o, k), fs.Now())
    ensures fs.Valid() <==> o != BadNumber
    ensures Ended(old(fs.vol), fs.vol, o)
    ensures o.Ok? ==> var s := SlotFor(fs.g, f, bno);
      o.block in fs.cached && s in fs.vol.own && fs.vol.own[s] == o.block && o.block < |fs.blocks| && |fs.blocks[o.block]| == BlkSize(fs.g)
    ensures Grows(f, old(fs.vol.own), old(fs.blocks), fs.vol.own, fs.blocks)
  {
    ghost var m0 := fs.Now();
    o := OpenChunk(fs, f, pos);
    TurnIsStep(turn, m0, bno, last, at, o, k, fs.Now());
  }

  /** r is how the transfer ended, and now is what it left. */
  ghost predicate Whole(end: (Meta, Outcome), r: IoResult, now: Meta) {
    match r
    case Done(_) => end.0 == now && end.1.Ok?
    case Stopped(why) => end == (now, why) && !why.Ok?
  }

  /** How a transfer within MAXFILESIZE ends, when every free block has its page table: the cache
      stops it exactly when it starts misaligned, and otherwise only a full disk can. */
  ghost predicate Verdict(fs: Server, m0: Meta, f: nat, offset: nat, n: nat, r: IoResult)
    requires fs.span > 0 && fs.g.nindirect > 0 && n > 0
    reads fs
  {
    match m0
    case Meta(_, _, _, _) =>
      TablesReady(fs.span, m0) && offset + n <= MaxFileSize(fs.g) ==>
        var mis := Misaligned(fs.g, m0, f, Quot(offset, BlkSize(fs.g)), Rem(offset, BlkSize(fs.g)));
        (r == Stopped(FaultPanic) <==> mis) && (!r.Done? && !mis ==> NoneFree(fs.bitmap))
  }

  lemma VerdictHolds(fs: Server, vol0: Vol, m0: Meta, f: nat, offset: nat, n: nat, r: IoResult)
    requires fs.span > 0 && fs.g.nindirect > 0 && n > 0
    requires Whole(Transfer(fs.g, fs.span, m0, f, offset, n), r, fs.Now())
    requires Inv(fs.g, vol0) && m0.own == vol0.own && m0.free == vol0.free
    ensures Verdict(fs, m0, f, offset, n, r)
  {
    InvMeta(fs.g, fs.span, vol0, m0.cached, m0.tables);
    if TablesReady(fs.span, m0) && offset + n <= MaxFileSize(fs.g) {
      var (m, o) := Transfer(fs.g, fs.span, m0, f, offset, n);
      TransferFaultsIff(fs.g, fs.span, m0, f, offset, n, m, o);
    }
  }

  /** With `done` of n bytes done and now reached, the rest of the loop leads to `end`. */
  ghost predicate Remains(turn: TurnOf, blk: nat, end: (Meta, Outcome), offset: nat, n: nat, done: nat, now: Meta)
    requires blk > 0 && n > 0 && done <= n
  {
    match end
    case (m, o) =>
      if done == n then m == now && o.Ok?
      else end == Loop(turn, now, Quot(offset + done, blk), Quot(offset + n - 1, blk), Rem(offset + done, blk))
  }

  ghost function TurnFor(g: Geometry, span: nat, f: nat): (turn: TurnOf)
    requires span > 0
    ensures IsTurn(turn, g, span, f)
  {
    (m: Meta, bno: nat, at: nat) => Turn(g, span, m, f, bno, at)
  }

  lemma TransferIsLoop(turn: TurnOf, g: Geometry, span: nat, m: Meta, f: nat, offset: nat, n: nat)
    requires span > 0 && g.nindirect > 0 && n > 0 && IsTurn(turn, g, span, f)
    ensures Remains(turn, BlkSize(g), Transfer(g, span, m, f, offset, n), offset, n, 0, m)
  {
    QuotMono(BlkSize(g), offset, offset + n - 1);
    LoopIsScan(turn, g, span, m, f, Quot(offset, BlkSize(g)), Quot(offset + n - 1, BlkSize(g)), Rem(offset, BlkSize(g)));
  }

  /** A turn stops the transfer, brings it to its end, or on to the next block. */
  lemma RemainsNext(turn: TurnOf, blk: nat, end: (Meta, Outcome), m0: Meta, offset: nat, n: nat, done: nat,
                    bno: nat, last: nat, at: nat, r: IoResult, now: Meta)
    requires blk > 0 && done < n && Remains(turn, blk, end, offset, n, done, m0)
    requires bno == Quot(offset + done, blk) && at == Rem(offset + done, blk)
    requires last == Quot(offset + n - 1, blk) && (r.Done? ==> r.count == Min(blk - at, n - done))
    requires StepOf(turn, m0, bno, last, at, r, now)
    ensures r.Stopped? && !r.why.Ok? ==> Whole(end, r, now)
    ensures r.Done? ==> done < done + r.count <= n && Remains(turn, blk, end, offset, n, done + r.count, now)
  {
    if r.Done? {
      NextChunk(blk, offset + done, n - done, r.count);
    }
  }

  /** file_read. On success buf is exactly f's bytes from offset, as many as
      asked for or, if the file ends before, all there are; holes it crosses have been allocated. How it
      ends is how the transfer ends. */
  method FileRead(fs: Server, f: nat, count: nat, offset: nat) returns (r: IoResult, buf: seq<nat>)
    requires fs.Valid() && f < |fs.files|
    modifies fs`files, fs`blocks, fs`bitmap, fs`cached, fs`tables, fs`vol
    ensures fs.vol.size == old(fs.vol.size) && Grows(f, old(fs.vol.own), old(fs.blocks), fs.vol.own, fs.blocks)
    ensures fs.Valid() <==> r != Stopped(BadNumber)
    ensures if r.Done? then SameLost(old(fs.vol), fs.vol) else Ended(old(fs.vol), fs.vol, r.why)
    ensures r.Done? ==> r.count == |buf| <= count
    ensures r.Done? && |buf| > 0 ==> offset + |buf| <= old(fs.vol.size)[f]
    ensures r.Done? && |buf| < count ==> offset + |buf| >= old(fs.vol.size)[f]
    ensures r.Done? ==> Holds(fs.g, fs.vol.own, fs.blocks, f, offset, buf, |buf|)
    ensures var n := ReadCount(old(fs.vol.size)[f], count, offset);
      if n == 0 then r.Done? && fs.Now() == old(fs.Now())
      else Whole(Transfer(fs.g, fs.span, old(fs.Now()), f, offset, n), r, fs.Now()) && Verdict(fs, old(fs.Now()), f, offset, n, r)
  {
    var n := ReadCount(fs.files[f].size, count, offset);
    if n == 0 {
      return Done(0), [];
    }
    ghost var vol0 := fs.vol;
    ghost var turn := TurnFor(fs.g, fs.span, f);
    ghost var end := Transfer(fs.g, fs.span, fs.Now(), f, offset, n);
    TransferIsLoop(turn, fs.g, fs.span, fs.Now(), f, offset, n);
    r, buf := ReadAll(fs, f, n, offset, end, turn);
    VerdictHolds(fs, vol0, old(fs.Now()), f, offset, n, r);
  }

  /** A read in progress: buf is what has been read so far. */
  ghost predicate Reading(fs: Server, job: ReadJob, buf: seq<nat>)
    reads fs
  {
    match job
    case ReadJob(vol0, blocks0, f, offset, n) =>
      && |buf| <= n && fs.Valid() && f < |fs.files| && SameLost(vol0, fs.vol) && fs.vol.size == vol0.size
      && offset + n <= fs.files[f].size && Grows(f, vol0.own, blocks0, fs.vol.own, fs.blocks)
      && Holds(fs.g, fs.vol.own, fs.blocks, f, offset, buf, |buf|)
  }

  datatype ReadJob = ReadJob(vol0: Vol, blocks0: seq<Block>, f: nat, offset: nat, n: nat)

  /** file_read's loop. */
  method ReadAll(fs: Server, f: nat, n: nat, offset: nat, ghost end: (Meta, Outcome), ghost turn: TurnOf)
    returns (r: IoResult, buf: seq<nat>)
    requires fs.Valid() && f < |fs.files| && 0 < n && offset + n <= fs.files[f].size && IsTurn(turn, fs.g, fs.span, f)
    requires Remains(turn, BlkSize(fs.g), end, offset, n, 0, fs.Now())
    modifies fs`files, fs`blocks, fs`bitmap, fs`cached, fs`tables, fs`vol
    ensures fs.vol.size == old(fs.vol.size) && Grows(f, old(fs.vol.own), old(fs.blocks), fs.vol.own, fs.blocks)
    ensures fs.Valid() <==> r != Stopped(BadNumber)
    ensures if r.Done? then SameLost(old(fs.vol), fs.vol) else Ended(old(fs.vol), fs.vol, r.why)
    ensures r.Done? ==> r.count == |buf| == n && Holds(fs.g, fs.vol.own, fs.blocks, f, offset, buf, n)
    ensures Whole(end, r, fs.Now())
  {
    buf := [];
    ghost var job := ReadJob(fs.vol, fs.blocks, f, offset, n);
    while |buf| < n
      invariant |buf| <= n && Reading(fs, job, buf)
      invariant Remains(turn, BlkSize(fs.g), end, offset, n, |buf|, fs.Now())
      decreases n - |buf|
    {
      r, buf := ReadNext(fs, f, n, offset, job, buf, end, turn);
      if !r.Done? {
        return;
      }
    }
    return Done(n), buf;
  }

  /** One turn of file_read's loop, at byte `at` of block bno. */
  method ReadChunk(fs: Server, f: nat, n: nat, offset: nat, buf: seq<nat>, ghost bno: nat, ghost last: nat, ghost at: nat,
                   ghost turn: TurnOf) returns (r: IoResult, buf': seq<nat>)
    requires |buf| < n && fs.Valid() && f < |fs.files| && offset + n <= fs.files[f].size && bno <= last
    requires bno == Quot(offset + |buf|, BlkSize(fs.g)) && at == Rem(offset + |buf|, BlkSize(fs.g)) && IsTurn(turn, fs.g, fs.span, f)
    requires Holds(fs.g, fs.vol.own, fs.blocks, f, offset, buf, |buf|)
    modifies fs`files, fs`blocks, fs`bitmap, fs`cached, fs`tables, fs`vol
    ensures |fs.files| == |old(fs.files)| && fs.vol.size == old(fs.vol.size)
    ensures Grows(f, old(fs.vol.own), old(fs.blocks), fs.vol.own, fs.blocks)
    ensures fs.Valid() <==> r != Stopped(BadNumber)
    ensures if r.Done? then SameLost(old(fs.vol), fs.vol) else !r.why.Ok? && Ended(old(fs.vol), fs.vol, r.why)
    ensures r.Done? ==> r.count == Min(BlkSize(fs.g) - at, n - |buf|) && |buf'| == |buf| + r.count
    ensures r.Done? ==> Holds(fs.g, fs.vol.own, fs.blocks, f, offset, buf', |buf'|)
    ensures StepOf(turn, old(fs.Now()), bno, last, at, r, fs.Now())
  {
    ghost var vol1, blocks1 := fs.vol, fs.blocks;
    var pos, blk := offset + |buf|, BlkSize(fs.g);
    var block, from := Locate(blk, pos);
    var bn := Min(blk - from, n - |buf|);
    var o := OpenStep(fs, f, pos, bno, last, at, bn, turn);
    if !o.Ok? {
      return Stopped(o), buf;
    }
    ReadOn(fs.g, f, vol1.own, blocks1, fs.vol.own, fs.blocks, offset, buf, bn);
    return Done(bn), buf + fs.blocks[o.block][from..from + bn];
  }

  /** The same, as part of the whole read. */
  method ReadNext(fs: Server, f: nat, n: nat, offset: nat, ghost job: ReadJob, buf: seq<nat>, ghost end: (Meta, Outcome),
                  ghost turn: TurnOf) returns (r: IoResult, buf': seq<nat>)
    requires Reading(fs, job, buf) && |buf| < n && job.f == f && job.n == n && job.offset == offset
    requires IsTurn(turn, fs.g, fs.span, f) && Remains(turn, BlkSize(fs.g), end, offset, n, |buf|, fs.Now())
    modifies fs`files, fs`blocks, fs`bitmap, fs`cached, fs`tables, fs`vol
    ensures fs.vol.size == job.vol0.size && Grows(f, job.vol0.own, job.blocks0, fs.vol.own, fs.blocks)
    ensures fs.Valid() <==> r != Stopped(BadNumber)
    ensures if r.Done?
            then |buf| < |buf'| <= n && Reading(fs, job, buf') && Remains(turn, BlkSize(fs.g), end, offset, n, |buf'|, fs.Now())
            else Ended(job.vol0, fs.vol, r.why) && Whole(end, r, fs.Now())
  {
    ghost var vol1, blocks1, m1, blk, pos := fs.vol, fs.blocks, fs.Now(), BlkSize(fs.g), offset + |buf|;
    ghost var bno, last, at := Quot(pos, blk), Quot(offset + n - 1, blk), Rem(pos, blk);
    QuotMono(blk, pos, offset + n - 1);
    r, buf' := ReadChunk(fs, f, n, offset, buf, bno, last, at, turn);
    RemainsNext(turn, blk, end, m1, offset, n, |buf|, bno, last, at, r, fs.Now());
    GrowsTwice(f, job.vol0.own, job.blocks0, vol1.own, blocks1, fs.vol.own, fs.blocks);
    if r.Done? {
      SameLostTwice(job.vol0, vol1, fs.vol);
    } else {
      EndedTwice(job.vol0, vol1, fs.vol, r.why);
    }
  }

  // ----- file_write -----

  function Splice(row: Block, at: nat, bytes: seq<nat>): (r: Block)
    requires at + |bytes| <= |row|
    ensures |r| == |row|
  {
    row[..at] + bytes + row[at + |bytes|..]
  }

  /** memmove into one block: the bytes written, and no others in any file. */
  lemma ChunkWrite(g: Geometry, own: map<Slot, nat>, blocks: seq<Block>, f: nat, pos: nat, bytes: seq<nat>, f': nat, p: nat)
    requires g.nindirect > 0 && Rem(pos, BlkSize(g)) + |bytes| <= BlkSize(g)
    requires var s := SlotFor(g, f, Quot(pos, BlkSize(g)));
      && s in own && own[s] < |blocks| && |blocks[own[s]]| == BlkSize(g)
      && forall x :: x in own && own[x] == own[s] ==> x == s
    ensures var b := own[SlotFor(g, f, Quot(pos, BlkSize(g)))];
      Byte(g, own, blocks[b := Splice(blocks[b], Rem(pos, BlkSize(g)), bytes)], f', p) ==
      if f' == f && pos <= p < pos + |bytes| then Some(bytes[p - pos]) else Byte(g, own, blocks, f', p)
  {
    var blk := BlkSize(g);
    var s, at := SlotFor(g, f, Quot(pos, blk)), Rem(pos, blk);
    if f' == f && pos <= p < pos + |bytes| {
      SameBlock(blk, pos, p - pos);
    } else if SlotFor(g, f', Quot(p, blk)) == s {
      assert f' == f && Quot(p, blk) == Quot(pos, blk);
      QuotRem(p, blk);
      QuotRem(pos, blk);
      assert p - pos == Rem(p, blk) - at;
    }
  }

  /** Bytes that existed outside [lo, hi) of f are as before, and so is every other file. */
  ghost predicate Untouched(g: Geometry, f: nat, lo: nat, hi: nat, own: map<Slot, nat>, blocks: seq<Block>,
                            own': map<Slot, nat>, blocks': seq<Block>)
    requires g.nindirect > 0
  {
    forall f': nat, p: nat {:trigger Byte(g, own', blocks', f', p)} ::
      !(f' == f && lo <= p < hi) && (f' != f || Byte(g, own, blocks, f', p).Some?) ==>
        Byte(g, own', blocks', f', p) == Byte(g, own, blocks, f', p)
  }

  lemma GrowsUntouched(g: Geometry, f: nat, lo: nat, hi: nat, own: map<Slot, nat>, blocks: seq<Block>,
                       own1: map<Slot, nat>, blocks1: seq<Block>, own2: map<Slot, nat>, blocks2: seq<Block>)
    requires g.nindirect > 0 && Untouched(g, f, lo, hi, own, blocks, own1, blocks1) && Grows(f, own1, blocks1, own2, blocks2)
    ensures Untouched(g, f, lo, hi, own, blocks, own2, blocks2)
  {
    forall f': nat, p: nat | !(f' == f && lo <= p < hi) && (f' != f || Byte(g, own, blocks, f', p).Some?)
      ensures Byte(g, own2, blocks2, f', p) == Byte(g, own, blocks, f', p)
    {
      GrowsByte(g, f, own1, blocks1, own2, blocks2, f', p);
      assert Byte(g, own1, blocks1, f', p) == Byte(g, own, blocks, f', p);
    }
  }

  /** A chunk inside [lo, hi) extends what has been written and touches nothing else. */
  lemma ChunkKeeps(g: Geometry, f: nat, offset: nat, data: seq<nat>, done: nat, n: nat,
                   own0: map<Slot, nat>, blocks0: seq<Block>, own: map<Slot, nat>, blocks: seq<Block>)
    requires g.nindirect > 0 && done + n <= |data| && Rem(offset + done, BlkSize(g)) + n <= BlkSize(g)
    requires var s := SlotFor(g, f, Quot(offset + done, BlkSize(g)));
      && s in own && own[s] < |blocks| && |blocks[own[s]]| == BlkSize(g)
      && forall x :: x in own && own[x] == own[s] ==> x == s
    requires Untouched(g, f, offset, offset + |data|, own0, blocks0, own, blocks)
    requires Holds(g, own, blocks, f, offset, data, done)
    ensures var b := own[SlotFor(g, f, Quot(offset + done, BlkSize(g)))];
      var blocks' := blocks[b := Splice(blocks[b], Rem(offset + done, BlkSize(g)), data[done..done + n])];
      && Untouched(g, f, offset, offset + |data|, own0, blocks0, own, blocks')
      && Holds(g, own, blocks', f, offset, data, done + n)
  {
    var pos := offset + done;
    var b := own[SlotFor(g, f, Quot(pos, BlkSize(g)))];
    var bytes := data[done..done + n];
    var blocks' := blocks[b := Splice(blocks[b], Rem(pos, BlkSize(g)), bytes)];
    forall f': nat, p: nat | !(f' == f && offset <= p < offset + |data|) && (f' != f || Byte(g, own0, blocks0, f', p).Some?)
      ensures Byte(g, own, blocks', f', p) == Byte(g, own0, blocks0, f', p)
    {
      ChunkWrite(g, own, blocks, f, pos, bytes, f', p);
      assert Byte(g, own, blocks, f', p) == Byte(g, own0, blocks0, f', p);
    }
    forall k | 0 <= k < done + n ensures Byte(g, own, blocks', f, offset + k) == Some(data[k]) {
      ChunkWrite(g, own, blocks, f, pos, bytes, f, offset + k);
    }
  }

  lemma WriteOn(g: Geometry, f: nat, offset: nat, data: seq<nat>, done: nat, n: nat,
                own0: map<Slot, nat>, blocks0: seq<Block>, own1: map<Slot, nat>, blocks1: seq<Block>,
                own: map<Slot, nat>, blocks: seq<Block>)
    requires g.nindirect > 0 && done + n <= |data| && Rem(offset + done, BlkSize(g)) + n <= BlkSize(g)
    requires var s := SlotFor(g, f, Quot(offset + done, BlkSize(g)));
      && s in own && own[s] < |blocks| && |blocks[own[s]]| == BlkSize(g)
      && forall x :: x in own && own[x] == own[s] ==> x == s
    requires Untouched(g, f, offset, offset + |data|, own0, blocks0, own1, blocks1)
    requires Holds(g, own1, blocks1, f, offset, data, done) && Grows(f, own1, blocks1, own, blocks)
    ensures var b := own[SlotFor(g, f, Quot(offset + done, BlkSize(g)))];
      var blocks' := blocks[b := Splice(blocks[b], Rem(offset + done, BlkSize(g)), data[done..done + n])];
      && Untouched(g, f, offset, offset + |data|, own0, blocks0, own, blocks')
      && Holds(g, own, blocks', f, offset, data, done + n)
  {
    GrowsHolds(g, f, own1, blocks1, own, blocks, offset, data, done);
    GrowsUntouched(g, f, offset, offset + |data|, own0, blocks0, own1, blocks1, own, blocks);
    ChunkKeeps(g, f, offset, data, done, n, own0, blocks0, own, blocks);
  }

  /** A write in progress: where it started, and what it is to write. */
  datatype Job = Job(vol0: Vol, blocks0: seq<Block>, f: nat, offset: nat, data: seq<nat>)

  ghost predicate Writing(fs: Server, job: Job, done: nat)
    reads fs
  {
    match job
    case Job(vol0, blocks0, f, offset, data) =>
      && fs.Valid() && f < |fs.files| && SameLost(vol0, fs.vol) && done <= |data|
      && offset + |data| <= fs.files[f].size
      && Untouched(fs.g, f, offset, offset + |data|, vol0.own, blocks0, fs.vol.own, fs.blocks)
      && Holds(fs.g, fs.vol.own, fs.blocks, f, offset, data, done)
  }

  /** One turn of file_write's loop. */
  method WriteChunk(fs: Server, f: nat, data: seq<nat>, offset: nat, done: nat, ghost job: Job,
                    ghost bno: nat, ghost last: nat, ghost at: nat, ghost turn: TurnOf) returns (r: IoResult)
    requires Writing(fs, job, done) && job.f == f && job.data == data && job.offset == offset && done < |data|
    requires bno == Quot(offset + done, BlkSize(fs.g)) && at == Rem(offset + done, BlkSize(fs.g)) && bno <= last
    requires IsTurn(turn, fs.g, fs.span, f)
    modifies fs`files, fs`blocks, fs`bitmap, fs`cached, fs`tables, fs`vol
    ensures fs.vol.size == old(fs.vol.size)
    ensures fs.Valid() <==> r != Stopped(BadNumber)
    ensures if r.Done? then r.count == Min(BlkSize(fs.g) - at, |data| - done) && Writing(fs, job, done + r.count)
            else !r.why.Ok? && Ended(job.vol0, fs.vol, r.why)
    ensures StepOf(turn, old(fs.Now()), bno, last, at, r, fs.Now())
  {
    ghost var vol1, blocks1 := fs.vol, fs.blocks;
    var pos, blk := offset + done, BlkSize(fs.g);
    var block, to := Locate(blk, pos);
    var bn := Min(blk - to, |data| - done);
    var o := OpenStep(fs, f, pos, bno, last, at, bn, turn);
    if !o.Ok? {
      EndedTwice(job.vol0, vol1, fs.vol, o);
      return Stopped(o);
    }
    SameLostTwice(job.vol0, vol1, fs.vol);
    WriteOn(fs.g, f, offset, data, done, bn, job.vol0.own, job.blocks0, vol1.own, blocks1, fs.vol.own, fs.blocks);
    PutChunk(fs, f, block, o.block, to, data[done..done + bn]);
    return Done(bn);
  }

  /** memmove(blk + pos % BLKSIZE, buf, bn): the block is data, so no pointer changes. */
  method PutChunk(fs: Server, f: nat, bno: nat, b: nat, at: nat, bytes: seq<nat>)
    requires fs.Valid() && SlotFor(fs.g, f, bno) in fs.vol.own && fs.vol.own[SlotFor(fs.g, f, bno)] == b
    requires b in fs.cached && b < |fs.blocks| && at + |bytes| <= BlkSize(fs.g)
    modifies fs`blocks
    ensures fs.Valid() && |old(fs.blocks)[b]| == BlkSize(fs.g)
    ensures fs.blocks == old(fs.blocks)[b := Splice(old(fs.blocks)[b], at, bytes)]
  {
    WriteData(fs.g, fs.files, fs.blocks, fs.vol.own, b, Splice(fs.blocks[b], at, bytes));
    BlockCache.BacksStore(fs.backs, fs.start, fs.span, fs.blocks, fs.bitmap, fs.cached, fs.tables, b, Splice(fs.blocks[b], at, bytes));
    fs.blocks := fs.blocks[b := Splice(fs.blocks[b], at, bytes)];
  }

  lemma SameBlocksUntouched(g: Geometry, f: nat, lo: nat, hi: nat, own: map<Slot, nat>, blocks: seq<Block>, blocks': seq<Block>)
    requires g.nindirect > 0 && SameBlocks(own, blocks, blocks')
    ensures Untouched(g, f, lo, hi, own, blocks, own, blocks')
  {
    forall f': nat, p: nat ensures Byte(g, own, blocks', f', p) == Byte(g, own, blocks, f', p) {
      var s := SlotFor(g, f', Quot(p, BlkSize(g)));
      assert !s.Indirect?;
    }
  }

  function MaxFileSize(g: Geometry): nat {
    (g.ndirect + g.nindirect) * BlkSize(g)
  }

  lemma WithinMax(g: Geometry, pos: nat)
    requires g.nindirect > 0 && pos < MaxFileSize(g)
    ensures pos / BlkSize(g) < g.ndirect + g.nindirect
  {
    QuotIsDiv(pos, BlkSize(g));
    QuotRem(pos, BlkSize(g));
    if Quot(pos, BlkSize(g)) >= g.ndirect + g.nindirect {
      MulMono(BlkSize(g), g.ndirect + g.nindirect, Quot(pos, BlkSize(g)));
    }
  }

  /** file_write. On success the bytes read back as data, the file has grown if
      it had to, and nothing that existed outside the range, in this file or
      any other, has changed. How it ends is how the transfer ends. */
  method FileWrite(fs: Server, f: nat, data: seq<nat>, offset: nat) returns (r: IoResult)
    requires fs.Valid() && f < |fs.files|
    modifies fs`files, fs`blocks, fs`bitmap, fs`cached, fs`tables, fs`vol
    ensures fs.Valid() <==> r != Stopped(BadNumber)
    ensures if r.Done? then SameLost(old(fs.vol), fs.vol) else Ended(old(fs.vol), fs.vol, r.why)
    ensures var n := old(fs.vol.size)[f]; var end := offset + |data|;
      fs.vol.size == old(fs.vol.size)[f := if end > n then end else n]
    ensures r.Done? ==> r.count == |data| && Holds(fs.g, fs.vol.own, fs.blocks, f, offset, data, |data|)
    ensures r.Done? ==> Untouched(fs.g, f, offset, offset + |data|, old(fs.vol.own), old(fs.blocks), fs.vol.own, fs.blocks)
    ensures if |data| == 0 then r.Done? && fs.Now() == old(fs.Now())
      else Whole(Transfer(fs.g, fs.span, old(fs.Now()), f, offset, |data|), r, fs.Now()) && Verdict(fs, old(fs.Now()), f, offset, |data|, r)
  {
    ghost var job, m0 := Job(fs.vol, fs.blocks, f, offset, data), fs.Now();
    SameBlocksUntouched(fs.g, f, offset, offset + |data|, fs.vol.own, fs.blocks, fs.blocks);
    if offset + |data| > fs.files[f].size {
      var ok := fs.FileSetSize(f, offset + |data|);
      SameBlocksUntouched(fs.g, f, offset, offset + |data|, fs.vol.own, job.blocks0, fs.blocks);
    }
    if |data| == 0 {
      return Done(0);
    }
    assert fs.Now() == m0 && Writing(fs, job, 0);
    ghost var turn := TurnFor(fs.g, fs.span, f);
    ghost var end := Transfer(fs.g, fs.span, m0, f, offset, |data|);
    TransferIsLoop(turn, fs.g, fs.span, m0, f, offset, |data|);
    r := WriteAll(fs, f, data, offset, job, end, turn);
    VerdictHolds(fs, job.vol0, m0, f, offset, |data|, r);
  }

  /** One turn of file_write's loop, as part of the whole write. */
  method WriteNext(fs: Server, f: nat, data: seq<nat>, offset: nat, done: nat, ghost job: Job, ghost end: (Meta, Outcome),
                   ghost turn: TurnOf) returns (r: IoResult)
    requires Writing(fs, job, done) && job.f == f && job.data == data && job.offset == offset && done < |data|
    requires IsTurn(turn, fs.g, fs.span, f) && Remains(turn, BlkSize(fs.g), end, offset, |data|, done, fs.Now())
    modifies fs`files, fs`blocks, fs`bitmap, fs`cached, fs`tables, fs`vol
    ensures fs.vol.size == old(fs.vol.size)
    ensures fs.Valid() <==> r != Stopped(BadNumber)
    ensures if r.Done?
            then 0 < r.count <= |data| - done && Writing(fs, job, done + r.count) &&
                 Remains(turn, BlkSize(fs.g), end, offset, |data|, done + r.count, fs.Now())
            else Ended(job.vol0, fs.vol, r.why) && Whole(end, r, fs.Now())
  {
    ghost var m1, blk, pos := fs.Now(), BlkSize(fs.g), offset + done;
    ghost var bno, last, at := Quot(pos, blk), Quot(offset + |data| - 1, blk), Rem(pos, blk);
    QuotMono(blk, pos, offset + |data| - 1);
    r := WriteChunk(fs, f, data, offset, done, job, bno, last, at, turn);
    RemainsNext(turn, blk, end, m1, offset, |data|, done, bno, last, at, r, fs.Now());
  }

  /** file_write's loop. */
  method WriteAll(fs: Server, f: nat, data: seq<nat>, offset: nat, ghost job: Job, ghost end: (Meta, Outcome),
                  ghost turn: TurnOf) returns (r: IoResult)
    requires Writing(fs, job, 0) && job.f == f && job.data == data && job.offset == offset && |data| > 0
    requires IsTurn(turn, fs.g, fs.span, f) && Remains(turn, BlkSize(fs.g), end, offset, |data|, 0, fs.Now())
    modifies fs`files, fs`blocks, fs`bitmap, fs`cached, fs`tables, fs`vol
    ensures fs.vol.size == old(fs.vol.size)
    ensures fs.Valid() <==> r != Stopped(BadNumber)
    ensures if r.Done? then r.count == |data| && Writing(fs, job, |data|) else Ended(job.vol0, fs.vol, r.why)
    ensures Whole(end, r, fs.Now())
  {
    var done := 0;
    while done < |data|
      invariant 0 <= done <= |data| && Writing(fs, job, done) && fs.vol.size == old(fs.vol.size)
      invariant Remains(turn, BlkSize(fs.g), end, offset, |data|, done, fs.Now())
      decreases |data| - done
    {
      r := WriteNext(fs, f, data, offset, done, job, end, turn);
      if !r.Done? {
        return;
      }
      done := done + r.count;
    }
    return Done(|data|);
  }

  lemma LastBlock(g: Geometry, offset: nat, n: nat)
    requires g.nindirect > 0 && n > 0 && offset + n <= MaxFileSize(g)
    ensures Quot(offset, BlkSize(g)) <= Quot(offset + n - 1, BlkSize(g)) < g.ndirect + g.nindirect
  {
    WithinMax(g, offset + n - 1);
    QuotIsDiv(offset + n - 1, BlkSize(g));
    QuotMono(BlkSize(g), offset, offset + n - 1);
  }

  lemma BlocksFaultIff(g: Geometry, span: nat, m: Meta, f: nat, bno: nat, last: nat, at: nat, m': Meta, o: Outcome)
    requires span > 0 && MetaInv(span, m) && TablesReady(span, m) && bno <= last < g.ndirect + g.nindirect
    requires (m', o) == Blocks(g, span, m, f, bno, last, at)
    ensures o == FaultPanic <==> Misaligned(g, m, f, bno, at)
    ensures !o.Ok? && o != FaultPanic ==> NoneFree(m'.free) && (o == Err(-E_NO_DISK) || o == BadNumber)
  {
    ScanFaultsIff(g, span, m, f, bno, last, at, m', o);
  }

  /** Exactly when the cache stops a transfer, known before the call. When every free block has its
      page table, a transfer within MAXFILESIZE is stopped by the cache if and only if it starts in
      the middle of a block, or of the indirect block, that is not cached; otherwise only by a full disk. */
  lemma TransferFaultsIff(g: Geometry, span: nat, m: Meta, f: nat, offset: nat, n: nat, m': Meta, o: Outcome)
    requires span > 0 && g.nindirect > 0 && MetaInv(span, m) && TablesReady(span, m)
    requires n > 0 && offset + n <= MaxFileSize(g) && (m', o) == Transfer(g, span, m, f, offset, n)
    ensures o == FaultPanic <==> Misaligned(g, m, f, Quot(offset, BlkSize(g)), Rem(offset, BlkSize(g)))
    ensures !o.Ok? && o != FaultPanic ==> NoneFree(m'.free) && (o == Err(-E_NO_DISK) || o == BadNumber)
  {
    var blk := BlkSize(g);
    LastBlock(g, offset, n);
    BlocksFaultIff(g, span, m, f, Quot(offset, blk), Quot(offset + n - 1, blk), Rem(offset, blk), m', o);
  }

  /** pwrite then pread: after a successful file_write and any growth of the
      file, a read of the same range returns exactly the bytes written. */
  lemma WrittenReadsBack(g: Geometry, f: nat, own: map<Slot, nat>, blocks: seq<Block>, own': map<Slot, nat>, blocks': seq<Block>,
                         offset: nat, data: seq<nat>, buf: seq<nat>)
    requires g.nindirect > 0 && Holds(g, own, blocks, f, offset, data, |data|)
    requires Grows(f, own, blocks, own', blocks') && |buf| == |data| && Holds(g, own', blocks', f, offset, buf, |buf|)
    ensures buf == data
  {
    GrowsHolds(g, f, own, blocks, own', blocks', offset, data, |data|);
    forall k | 0 <= k < |data| ensures buf[k] == data[k] {
      assert Byte(g, own', blocks', f, offset + k) == Some(data[k]);
    }
  }

  /** The two calls in sequence. */
  method WriteThenRead(fs: Server, f: nat, data: seq<nat>, offset: nat) returns (w: IoResult, r: IoResult, buf: seq<nat>)
    requires fs.Valid() && f < |fs.files|
    modifies fs`files, fs`blocks, fs`bitmap, fs`cached, fs`tables, fs`vol
    ensures w.Done? && r.Done? ==> fs.Valid() && SameLost(old(fs.vol), fs.vol) && buf == data
  {
    buf := [];
    w := FileWrite(fs, f, data, offset);
    r := w;
    if !w.Done? {
      return;
    }
    ghost var vol1, blocks1 := fs.vol, fs.blocks;
    r, buf := FileRead(fs, f, |data|, offset);
    if r.Done? {
      SameLostTwice(old(fs.vol), vol1, fs.vol);
      WrittenReadsBack(fs.g, f, vol1.own, blocks1, fs.vol.own, fs.blocks, offset, data, buf);
    }
  }

  // ----- whole runs -----

  /** A file operation, and what goes back for it; an invalid file does nothing. */
  datatype Request = Read(f: nat, count: nat, offset: nat) | Write(f: nat, data: seq<nat>, offset: nat) | SetSize(f: nat, n: nat)

  datatype Reply = Reply(r: IoResult, buf: seq<nat>)

  /** What the server holds between two requests. */
  datatype Snap = Snap(vol: Vol, blocks: seq<Block>, now: Meta)

  ghost function SnapOf(fs: Server): Snap
    reads fs
  {
    Snap(fs.vol, fs.blocks, fs.Now())
  }

  /** A transfer of n bytes at offset of f ends as the loop over its blocks does. */
  ghost predicate EndsAs(g: Geometry, span: nat, s: Snap, f: nat, offset: nat, n: nat, r: IoResult, s': Snap)
    requires span > 0 && g.nindirect > 0
  {
    if n == 0 then r.Done? && s'.now == s.now else Whole(Transfer(g, span, s.now, f, offset, n), r, s'.now)
  }

  /** pread: the file's bytes, as many as asked for and as there are; nothing that existed has changed. */
  ghost predicate ReadDone(g: Geometry, span: nat, s: Snap, f: nat, count: nat, offset: nat, p: Reply, s': Snap)
    requires span > 0 && g.nindirect > 0 && f < |s.vol.size|
  {
    var n, size := ReadCount(s.vol.size[f], count, offset), s.vol.size[f];
    && EndsAs(g, span, s, f, offset, n, p.r, s')
    && s'.vol.size == s.vol.size && Grows(f, s.vol.own, s.blocks, s'.vol.own, s'.blocks)
    && (p.r.Done? ==>
          && p.r.count == |p.buf| && PreadLength(size, count, offset, |p.buf|)
          && Holds(g, s'.vol.own, s'.blocks, f, offset, p.buf, |p.buf|))
  }

  /** pwrite: the data in its place, the file as long as it has to be, nothing else changed. */
  ghost predicate WriteDone(g: Geometry, span: nat, s: Snap, f: nat, data: seq<nat>, offset: nat, p: Reply, s': Snap)
    requires span > 0 && g.nindirect > 0 && f < |s.vol.size|
  {
    var end := offset + |data|;
    && EndsAs(g, span, s, f, offset, |data|, p.r, s')
    && s'.vol.size == s.vol.size[f := if end > s.vol.size[f] then end else s.vol.size[f]]
    && (p.r.Done? ==>
          && p.r.count == |data| && Holds(g, s'.vol.own, s'.blocks, f, offset, data, |data|)
          && Untouched(g, f, offset, end, s.vol.own, s.blocks, s'.vol.own, s'.blocks))
  }

  /** ftruncate: the new size, and the slots it needs; or the panic, with nothing changed. */
  ghost predicate SizeDone(g: Geometry, s: Snap, f: nat, n: nat, p: Reply, s': Snap)
    requires g.nindirect > 0 && f < |s.vol.size|
  {
    if ShrinkPanics(g, s.now, f, s.vol.size[f], n) then p.r == Stopped(FaultPanic) && s' == s
    else
      && p == Reply(Done(0), []) && s'.vol.size == s.vol.size[f := n] && SameBlocks(s'.vol.own, s.blocks, s'.blocks)
      && s'.vol.own == if n < s.vol.size[f] then Cut(g, s.vol.own, f, NumBlocks(g, n)) else s.vol.own
  }

  ghost predicate Answers(g: Geometry, span: nat, s: Snap, req: Request, p: Reply, s': Snap)
    requires span > 0 && g.nindirect > 0
  {
    if req.f >= |s.vol.size| then p == Reply(Done(0), []) && s' == s
    else
      match req
      case Read(f, count, offset) => ReadDone(g, span, s, f, count, offset, p, s')
      case Write(f, data, offset) => WriteDone(g, span, s, f, data, offset, p, s')
      case SetSize(f, n) => SizeDone(g, s, f, n, p, s')
  }

  /** An error code goes back to the client; the others end the server. */
  predicate Panics(r: IoResult) {
    r.Stopped? && (r.why == BadNumber || r.why == FaultPanic || r.why.FlushPanic?)
  }

  /** What a request loses: nothing, or the block that alloc_block was flushing when it panicked. */
  ghost predicate Loses(v: Vol, v': Vol, r: IoResult) {
    if r.Done? then SameLost(v, v') else Ended(v, v', r.why)
  }

  method ServeOne(fs: Server, req: Request) returns (p: Reply)
    requires fs.Valid()
    modifies fs`files, fs`blocks, fs`bitmap, fs`cached, fs`tables, fs`vol
    ensures fs.Valid() <==> p.r != Stopped(BadNumber)
    ensures Loses(old(fs.vol), fs.vol, p.r)
    ensures Answers(fs.g, fs.span, old(SnapOf(fs)), req, p, SnapOf(fs))
  {
    if req.f >= |fs.files| {
      return Reply(Done(0), []);
    }
    match req {
      case Read(f, count, offset) =>
        var r, buf := FileRead(fs, f, count, offset);
        p := Reply(r, buf);
      case Write(f, data, offset) =>
        var r := FileWrite(fs, f, data, offset);
        p := Reply(r, []);
      case SetSize(f, n) =>
        var ok := fs.FileSetSize(f, n);
        p := Reply(if ok then Done(0) else Stopped(FaultPanic), []);
    }
  }

  /** The requests were answered one after the other, from state to state. */
  ghost predicate Served(g: Geometry, span: nat, states: seq<Snap>, reqs: seq<Request>, replies: seq<Reply>)
    requires span > 0 && g.nindirect > 0
  {
    && |states| == |replies| + 1 && |replies| <= |reqs|
    && (forall i {:trigger replies[i]} :: 0 <= i < |replies| ==> Answers(g, span, states[i], reqs[i], replies[i], states[i + 1]))
    && (forall i :: 0 <= i < |replies| - 1 ==> !Panics(replies[i].r))
  }

  /** Every run of file operations. Each request is answered as pread, pwrite or ftruncate would,
      from the state the one before it left. As long as nothing panics, no block has two owners, no
      owned block is free, every slot in use is needed for its file's size, and the blocks neither
      free nor owned are the same ones as at the start. A panic ends the run, and nothing else does:
      what is stored is then sound unless it was diskaddr()'s, and a block is lost only in flush_block's. */
  method Serve(fs: Server, reqs: seq<Request>) returns (replies: seq<Reply>, ghost states: seq<Snap>)
    requires fs.Valid()
    modifies fs`files, fs`blocks, fs`bitmap, fs`cached, fs`tables, fs`vol
    ensures Served(fs.g, fs.span, states, reqs, replies) && states[0] == old(SnapOf(fs)) && states[|replies|] == SnapOf(fs)
    ensures if replies != [] && Panics(replies[|replies| - 1].r) then Loses(old(fs.vol), fs.vol, replies[|replies| - 1].r)
            else |replies| == |reqs| && SameLost(old(fs.vol), fs.vol)
    ensures |replies| < |reqs| ==> replies != [] && replies[|replies| - 1].r.Stopped? && !replies[|replies| - 1].r.why.Err?
    ensures fs.Valid() <==> replies == [] || replies[|replies| - 1].r != Stopped(BadNumber)
  {
    replies, states := [], [SnapOf(fs)];
    ghost var vol0 := fs.vol;
    while |replies| < |reqs|
      invariant |replies| <= |reqs| && fs.Valid() && SameLost(vol0, fs.vol)
      invariant Served(fs.g, fs.span, states, reqs, replies) && states[0] == old(SnapOf(fs)) && states[|replies|] == SnapOf(fs)
      invariant replies == [] || !Panics(replies[|replies| - 1].r)
      decreases |reqs| - |replies|
    {
      ghost var vol1 := fs.vol;
      var p := ServeOne(fs, reqs[|replies|]);
      ServedNext(fs.g, fs.span, states, reqs, replies, p, SnapOf(fs));
      LosesAfter(vol0, vol1, fs.vol, p.r);
      replies, states := replies + [p], states + [SnapOf(fs)];
      if Panics(p.r) {
        return;
      }
    }
  }

  lemma ServedNext(g: Geometry, span: nat, states: seq<Snap>, reqs: seq<Request>, replies: seq<Reply>, p: Reply, s: Snap)
    requires span > 0 && g.nindirect > 0 && Served(g, span, states, reqs, replies) && |replies| < |reqs|
    requires replies == [] || !Panics(replies[|replies| - 1].r)
    requires Answers(g, span, states[|replies|], reqs[|replies|], p, s)
    ensures Served(g, span, states + [s], reqs, replies + [p])
  {
    var states', replies' := states + [s], replies + [p];
    forall i | 0 <= i < |replies'| ensures Answers(g, span, states'[i], reqs[i], replies'[i], states'[i + 1]) {
      if i < |replies| {
        assert Answers(g, span, states[i], reqs[i], replies[i], states[i + 1]);
      }
    }
  }

  lemma LosesAfter(v0: Vol, v1: Vol, v2: Vol, r: IoResult)
    requires SameLost(v0, v1) && Loses(v1, v2, r)
    ensures Loses(v0, v2, r)
    ensures !Panics(r) ==> SameLost(v0, v2)
  {
    if r.Done? {
      SameLostTwice(v0, v1, v2);
    } else {
      EndedTwice(v0, v1, v2, r.why);
    }
  }
}
