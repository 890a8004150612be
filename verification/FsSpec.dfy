/** Which disk block belongs to which slot of which file (fs/fs.c): the direct
    and indirect block pointers, the free bitmap and the file sizes. */
module FsSpec {

  /** NDIRECT and NINDIRECT; a block holds NINDIRECT 4-byte pointers. */
  datatype Geometry = Geometry(ndirect: nat, nindirect: nat)

  function BlkSize(g: Geometry): nat {
    4 * g.nindirect
  }

  /** An indirect block has room for exactly its entries, of one word each. */
  lemma EntriesFillBlock(g: Geometry, j: nat)
    ensures 4 * j + 4 <= BlkSize(g) <==> j < g.nindirect
    ensures BlkSize(g) % 4 == 0
  {
  }

  /** Places that hold a block number: f_direct[i], f_indirect, and entry j of the indirect block. */
  datatype Slot = Direct(file: nat, i: nat) | Indirect(file: nat) | Entry(file: nat, j: nat)

  /** own: the non-zero slots; free: the bitmap; size: f_size of each file. */
  datatype Vol = Vol(own: map<Slot, nat>, free: seq<bool>, size: seq<nat>)

  function NumBlocks(g: Geometry, size: nat): nat
    requires g.nindirect > 0
  {
    (size + BlkSize(g) - 1) / BlkSize(g)
  }

  /** The file block that a slot serves; the indirect pointer serves the first block beyond the direct ones. */
  function Serves(g: Geometry, s: Slot): nat {
    match s
    case Direct(_, i) => i
    case Indirect(_) => g.ndirect
    case Entry(_, j) => g.ndirect + j
  }

  predicate InGeometry(g: Geometry, s: Slot) {
    match s
    case Direct(_, i) => i < g.ndirect
    case Indirect(_) => true
    case Entry(_, j) => j < g.nindirect
  }

  predicate InSize(g: Geometry, v: Vol, s: Slot)
    requires g.nindirect > 0
  {
    s.file < |v.size| && Serves(g, s) < NumBlocks(g, v.size[s.file])
  }

  ghost predicate SlotOk(g: Geometry, v: Vol, s: Slot)
    requires g.nindirect > 0
  {
    s in v.own ==>
      && 0 < v.own[s] < |v.free| && !v.free[v.own[s]]
      && InGeometry(g, s) && InSize(g, v, s)
      && (s.Entry? ==> Indirect(s.file) in v.own)
  }

  /** No block has two owners. */
  ghost predicate OneOwner(v: Vol) {
    forall s, s' :: s in v.own && s' in v.own && v.own[s] == v.own[s'] ==> s == s'
  }

  /** Every owned block is a real block, marked in use, owned once, and needed
      for the file's size; block 0 is never free. */
  ghost predicate Inv(g: Geometry, v: Vol) {
    && g.nindirect > 0 && |v.free| > 0 && !v.free[0]
    && (forall s: Slot {:trigger SlotOk(g, v, s)} :: SlotOk(g, v, s))
    && OneOwner(v)
  }

  ghost predicate Owned(v: Vol, b: nat) {
    exists s :: s in v.own && v.own[s] == b
  }

  /** Neither free nor owned. */
  ghost predicate Lost(v: Vol, b: nat) {
    b < |v.free| && !v.free[b] && !Owned(v, b)
  }

  ghost predicate SameLost(v: Vol, v': Vol) {
    forall b: nat {:trigger Lost(v', b)} :: Lost(v, b) <==> Lost(v', b)
  }

  // ----- the three ways a volume changes -----

  function Claim(v: Vol, s: Slot, b: nat): Vol
    requires b < |v.free|
  {
    v.(own := v.own[s := b], free := v.free[b := false])
  }

  function Release(v: Vol, s: Slot): Vol
    requires s in v.own && v.own[s] < |v.free|
  {
    v.(own := v.own - {s}, free := v.free[v.own[s] := true])
  }

  function Resize(v: Vol, f: nat, n: nat): Vol
    requires f < |v.size|
  {
    v.(size := v.size[f := n])
  }

  lemma ClaimOwned(v: Vol, s: Slot, b: nat, x: nat)
    requires b < |v.free| && s !in v.own
    ensures Owned(Claim(v, s, b), x) <==> Owned(v, x) || x == b
  {
    var u := Claim(v, s, b);
    assert s in u.own && u.own[s] == b;
    if t :| t in v.own && v.own[t] == x {
      assert t in u.own && u.own[t] == x;
    }
  }

  /** A free block goes to an empty slot within the file's size. */
  lemma ClaimKeeps(g: Geometry, v: Vol, s: Slot, b: nat)
    requires Inv(g, v) && s !in v.own && b < |v.free| && v.free[b]
    requires InGeometry(g, s) && InSize(g, v, s) && (s.Entry? ==> Indirect(s.file) in v.own)
    ensures Inv(g, Claim(v, s, b)) && SameLost(v, Claim(v, s, b))
  {
    var u := Claim(v, s, b);
    forall t: Slot ensures SlotOk(g, u, t) && (t in v.own ==> v.own[t] != b) {
      assert SlotOk(g, v, t);
    }
    forall x: nat ensures Lost(v, x) <==> Lost(u, x) {
      ClaimOwned(v, s, b, x);
      if t :| t in v.own && v.own[t] == b {
      }
    }
  }

  lemma ReleaseOwned(v: Vol, s: Slot, x: nat)
    requires OneOwner(v) && s in v.own && v.own[s] < |v.free|
    ensures Owned(Release(v, s), x) <==> Owned(v, x) && x != v.own[s]
  {
    var u := Release(v, s);
    if t :| t in v.own && v.own[t] == x && x != v.own[s] {
      assert t in u.own && u.own[t] == x;
    }
  }

  /** A slot gives its block back; the indirect block must have no entries left. */
  lemma ReleaseKeeps(g: Geometry, v: Vol, s: Slot)
    requires Inv(g, v) && s in v.own && v.own[s] < |v.free|
    requires s.Indirect? ==> forall j :: Entry(s.file, j) !in v.own
    ensures Inv(g, Release(v, s)) && SameLost(v, Release(v, s))
  {
    var u := Release(v, s);
    assert SlotOk(g, v, s);
    forall t: Slot ensures SlotOk(g, u, t) {
      assert SlotOk(g, v, t);
    }
    forall x: nat ensures Lost(v, x) <==> Lost(u, x) {
      ReleaseOwned(v, s, x);
      assert Owned(v, v.own[s]);
    }
  }

  /** A new size keeps the invariant exactly when no slot beyond it is in use. */
  lemma ResizeKeepsIff(g: Geometry, v: Vol, f: nat, n: nat)
    requires Inv(g, v) && f < |v.size|
    ensures Inv(g, Resize(v, f, n)) <==> forall s :: s in v.own && s.file == f ==> Serves(g, s) < NumBlocks(g, n)
    ensures SameLost(v, Resize(v, f, n))
  {
    var u := Resize(v, f, n);
    if forall s :: s in v.own && s.file == f ==> Serves(g, s) < NumBlocks(g, n) {
      forall t: Slot ensures SlotOk(g, u, t) {
        assert SlotOk(g, v, t);
      }
    } else {
      var s :| s in v.own && s.file == f && Serves(g, s) >= NumBlocks(g, n);
      assert !SlotOk(g, u, s);
    }
    forall x: nat ensures Lost(v, x) <==> Lost(u, x) {
      assert Owned(u, x) <==> Owned(v, x);
    }
  }

  /** Exactly block b has become lost. */
  ghost predicate LostAlso(v: Vol, v': Vol, b: nat) {
    forall x: nat {:trigger Lost(v', x)} :: Lost(v', x) <==> Lost(v, x) || x == b
  }

  /** A block marked in use that no slot gets. */
  lemma LoseOne(g: Geometry, v: Vol, b: nat)
    requires Inv(g, v) && b < |v.free| && v.free[b]
    ensures Inv(g, v.(free := v.free[b := false])) && LostAlso(v, v.(free := v.free[b := false]), b)
  {
    var u := v.(free := v.free[b := false]);
    forall s: Slot ensures SlotOk(g, u, s) && (s in v.own ==> v.own[s] != b) {
      assert SlotOk(g, v, s);
    }
    forall x: nat ensures Lost(u, x) <==> Lost(v, x) || x == b {
      assert Owned(u, x) <==> Owned(v, x);
    }
  }
}
