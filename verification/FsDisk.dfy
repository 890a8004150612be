/** The bytes behind module FsSpec: struct File records and disk blocks, where
    an indirect block is 4-byte block numbers among blocks of file data. */
module FsDisk {
  import opened Machine
  import opened FsSpec

  datatype File = File(size: nat, direct: seq<nat>, indirect: nat)

  type Block = seq<nat>

  ghost predicate Shaped(g: Geometry, files: seq<File>, blocks: seq<Block>, own: map<Slot, nat>) {
    && (forall f :: 0 <= f < |files| ==> |files[f].direct| == g.ndirect)
    && (forall b :: 0 <= b < |blocks| ==> |blocks[b]| == BlkSize(g))
    && |blocks| + 9 <= SIZE
    && (forall s :: s in own ==> own[s] < |blocks| && s.file < |files| && InGeometry(g, s))
  }

  /** The slot can be read: an entry only if there is an indirect block. */
  predicate Reachable(g: Geometry, files: seq<File>, own: map<Slot, nat>, s: Slot) {
    s.file < |files| && InGeometry(g, s) && (s.Entry? ==> Indirect(s.file) in own)
  }

  ghost function Stored(g: Geometry, files: seq<File>, blocks: seq<Block>, own: map<Slot, nat>, s: Slot): nat
    requires Shaped(g, files, blocks, own) && Reachable(g, files, own, s)
  {
    match s
    case Direct(f, i) => files[f].direct[i]
    case Indirect(f) => files[f].indirect
    case Entry(f, j) => Get(blocks[own[Indirect(f)]], 4 * j)
  }

  /** The stored block number is the slot's, or 0 when it has none. */
  ghost predicate Shows(g: Geometry, files: seq<File>, blocks: seq<Block>, own: map<Slot, nat>, s: Slot)
    requires Shaped(g, files, blocks, own)
  {
    Reachable(g, files, own, s) ==> Stored(g, files, blocks, own, s) == if s in own then own[s] else 0
  }

  ghost predicate Represents(g: Geometry, files: seq<File>, blocks: seq<Block>, own: map<Slot, nat>) {
    && Shaped(g, files, blocks, own)
    && forall s: Slot {:trigger Shows(g, files, blocks, own, s)} :: Shows(g, files, blocks, own, s)
  }

  function SetDirect(files: seq<File>, f: nat, i: nat, v: nat): seq<File>
    requires f < |files| && i < |files[f].direct|
  {
    files[f := files[f].(direct := files[f].direct[i := v])]
  }

  function SetIndirect(files: seq<File>, f: nat, v: nat): seq<File>
    requires f < |files|
  {
    files[f := files[f].(indirect := v)]
  }

  function SetFileSize(files: seq<File>, f: nat, n: nat): seq<File>
    requires f < |files|
  {
    files[f := files[f].(size := n)]
  }

  /** f_direct[i] = b, for a block number b, or 0. */
  lemma WriteDirect(g: Geometry, files: seq<File>, blocks: seq<Block>, own: map<Slot, nat>, f: nat, i: nat, b: nat)
    requires Represents(g, files, blocks, own) && f < |files| && i < g.ndirect && b < |blocks|
    ensures |files[f].direct| == g.ndirect
    ensures b != 0 ==> Represents(g, SetDirect(files, f, i, b), blocks, own[Direct(f, i) := b])
    ensures b == 0 ==> Represents(g, SetDirect(files, f, i, b), blocks, own - {Direct(f, i)})
  {
    var files' := SetDirect(files, f, i, b);
    var own' := if b != 0 then own[Direct(f, i) := b] else own - {Direct(f, i)};
    forall s: Slot ensures Shows(g, files', blocks, own', s) {
      assert Shows(g, files, blocks, own, s);
    }
  }

  /** Entry j of the indirect block at own[Indirect(f)]. */
  lemma WriteEntry(g: Geometry, files: seq<File>, blocks: seq<Block>, own: map<Slot, nat>, f: nat, j: nat, b: nat)
    requires Represents(g, files, blocks, own) && j < g.nindirect && b < |blocks| && Indirect(f) in own
    requires forall s :: s in own && own[s] == own[Indirect(f)] ==> s == Indirect(f)
    ensures |blocks[own[Indirect(f)]]| == BlkSize(g)
    ensures var t := own[Indirect(f)]; var blocks' := blocks[t := Put(blocks[t], 4 * j, b)];
      && (b != 0 ==> Represents(g, files, blocks', own[Entry(f, j) := b]))
      && (b == 0 ==> Represents(g, files, blocks', own - {Entry(f, j)}))
  {
    var t := own[Indirect(f)];
    var blocks' := blocks[t := Put(blocks[t], 4 * j, b)];
    var own' := if b != 0 then own[Entry(f, j) := b] else own - {Entry(f, j)};
    forall s: Slot ensures Shows(g, files, blocks', own', s) {
      assert Shows(g, files, blocks, own, s);
      if s.Entry? && s.file == f && s.j < g.nindirect {
        if s.j == j {
          GetPutSame(blocks[t], 4 * j, b);
        } else {
          GetPutOther(blocks[t], 4 * j, b, 4 * s.j);
        }
      }
    }
  }

  /** A cleared block becomes f's indirect block: no entries. */
  lemma NewIndirect(g: Geometry, files: seq<File>, blocks: seq<Block>, own: map<Slot, nat>, f: nat, b: nat)
    requires Represents(g, files, blocks, own) && f < |files| && 0 < b < |blocks|
    requires Indirect(f) !in own && (forall j :: Entry(f, j) !in own)
    requires forall s :: s in own ==> own[s] != b
    ensures var blocks' := blocks[b := seq(BlkSize(g), x => 0)];
      Represents(g, SetIndirect(files, f, b), blocks', own[Indirect(f) := b])
  {
    var zeros: Block := seq(BlkSize(g), x => 0);
    var files', blocks', own' := SetIndirect(files, f, b), blocks[b := zeros], own[Indirect(f) := b];
    forall s: Slot ensures Shows(g, files', blocks', own', s) {
      assert Shows(g, files, blocks, own, s);
      if s.Entry? && s.file == f && s.j < g.nindirect {
        ZerosRead(zeros, 4 * s.j, 4 * s.j + 4);
      }
    }
  }

  lemma {:induction false} ZerosRead(mem: Mem, a: nat, hi: nat)
    requires a <= hi <= |mem| && forall x :: a <= x < hi ==> mem[x] == 0
    ensures GetBytes(mem, a, hi) == 0
    decreases hi - a
  {
    if a < hi {
      ZerosRead(mem, a + 1, hi);
    }
  }

  /** f_indirect = 0, once it has no entries. */
  lemma ClearIndirect(g: Geometry, files: seq<File>, blocks: seq<Block>, own: map<Slot, nat>, f: nat)
    requires Represents(g, files, blocks, own) && f < |files| && (forall j :: Entry(f, j) !in own)
    ensures Represents(g, SetIndirect(files, f, 0), blocks, own - {Indirect(f)})
  {
    var files', own' := SetIndirect(files, f, 0), own - {Indirect(f)};
    forall s: Slot ensures Shows(g, files', blocks, own', s) {
      assert Shows(g, files, blocks, own, s);
    }
  }

  /** Any block that is nobody's indirect block can be overwritten freely. */
  lemma WriteData(g: Geometry, files: seq<File>, blocks: seq<Block>, own: map<Slot, nat>, b: nat, row: Block)
    requires Represents(g, files, blocks, own) && b < |blocks| && |row| == BlkSize(g)
    requires forall f :: Indirect(f) in own ==> own[Indirect(f)] != b
    ensures Represents(g, files, blocks[b := row], own)
  {
    var blocks' := blocks[b := row];
    forall s: Slot ensures Shows(g, files, blocks', own, s) {
      assert Shows(g, files, blocks, own, s);
    }
  }

  lemma WriteSize(g: Geometry, files: seq<File>, blocks: seq<Block>, own: map<Slot, nat>, f: nat, n: nat)
    requires Represents(g, files, blocks, own) && f < |files|
    ensures Represents(g, SetFileSize(files, f, n), blocks, own)
  {
    var files' := SetFileSize(files, f, n);
    forall s: Slot ensures Shows(g, files', blocks, own, s) {
      assert Shows(g, files, blocks, own, s);
    }
  }
}
