/** kern/pmap.c: page_init threads the free list through pages[], and what it
    leaves is a valid starting point. */
module PageInit {
  import opened Counting
  import opened FreeList
  import opened Vm
  import opened PageTables
  import opened Pmap

  /** The machine: npages frames, base of them below the I/O hole, frame mp kept for the
      other CPUs' entry code, and the kernel and the hole ending before frame kernEnd. */
  datatype Board = Board(npages: nat, base: nat, mp: nat, kernEnd: nat)

  predicate Sane(b: Board) {
    1 <= b.base <= b.kernEnd && b.base <= b.npages
  }

  /** Base pages below i other than 0 and mp, in order. */
  function Low(b: Board, i: nat): seq<nat> {
    if i <= 1 then [] else if i - 1 == b.mp then Low(b, i - 1) else Low(b, i - 1) + [i - 1]
  }

  /** Pages from the end of the kernel up to i, in order. */
  function High(b: Board, i: nat): seq<nat> {
    if i <= b.kernEnd then [] else High(b, i - 1) + [i - 1]
  }

  predicate Usable(b: Board, f: nat) {
    f < b.npages && ((1 <= f < b.base && f != b.mp) || b.kernEnd <= f)
  }

  lemma {:induction false} LowIs(b: Board, i: nat)
    ensures forall f: nat :: f in Low(b, i) <==> 1 <= f < i && f != b.mp
    ensures Distinct(Low(b, i)) && forall k :: 0 <= k < |Low(b, i)| ==> 1 <= Low(b, i)[k] < i && Low(b, i)[k] != b.mp
    ensures Low(b, i) != [] && i - 1 != b.mp ==> Low(b, i)[|Low(b, i)| - 1] == i - 1
  {
    if i > 1 {
      LowIs(b, i - 1);
      if i - 1 != b.mp {
        assert forall f: nat :: f in Low(b, i) <==> f in Low(b, i - 1) || f == i - 1;
        DistinctAppend(Low(b, i - 1), i - 1);
      }
    }
  }

  lemma DistinctAppend(s: seq<nat>, x: nat)
    requires Distinct(s) && x !in s
    ensures Distinct(s + [x])
  {
  }

  lemma {:induction false} HighIs(b: Board, i: nat)
    ensures forall f: nat :: f in High(b, i) <==> b.kernEnd <= f < i
    ensures Distinct(High(b, i)) && forall k :: 0 <= k < |High(b, i)| ==> b.kernEnd <= High(b, i)[k] < i
  {
    if i > b.kernEnd {
      HighIs(b, i - 1);
      assert forall f: nat :: f in High(b, i) <==> f in High(b, i - 1) || f == i - 1;
      DistinctAppend(High(b, i - 1), i - 1);
    }
  }

  /** The list in order: the base pages, then the rest, unless the last base page is not on it. */
  function FreePages(b: Board): seq<nat> {
    if HighJoined(b) then Low(b, b.base) + High(b, b.npages) else Low(b, b.base)
  }

  predicate HighJoined(b: Board) {
    Low(b, b.base) != [] && b.base - 1 != b.mp
  }

  /** The base pages: each is linked behind the one before. */
  method LinkLow(b: Board, refs0: seq<nat>, link0: seq<int>) returns (refs: seq<nat>, link: seq<int>, head: int)
    requires Sane(b) && |refs0| == |link0| == b.npages
    ensures |refs| == |link| == b.npages && Chain(head, link, Low(b, b.base))
    ensures forall f: nat :: f < b.npages ==> refs[f] == if 1 <= f < b.base && f != b.mp then 0 else refs0[f]
  {
    refs, link, head := refs0, link0, NULL;
    var i, prev := 1, 0;
    while i < b.base
      invariant 1 <= i <= b.base && |refs| == |link| == b.npages
      invariant Chain(head, link, Low(b, i)) && (head == NULL <==> Low(b, i) == [])
      invariant head != NULL ==> prev == Low(b, i)[|Low(b, i)| - 1]
      invariant forall f: nat :: f < b.npages ==> refs[f] == if 1 <= f < i && f != b.mp then 0 else refs0[f]
    {
      if i != b.mp {
        refs := refs[i := 0];
        link, head := AppendLow(b, link, head, i, prev);
        prev := i;
      }
      i := i + 1;
    }
  }

  /** One base page: the page before it in memory is linked to it as well. */
  method AppendLow(b: Board, link0: seq<int>, head0: int, i: nat, prev: nat) returns (link: seq<int>, head: int)
    requires 1 <= i < |link0| && i != b.mp
    requires Chain(head0, link0, Low(b, i)) && (head0 == NULL <==> Low(b, i) == [])
    requires head0 != NULL ==> prev == Low(b, i)[|Low(b, i)| - 1]
    ensures |link| == |link0| && Chain(head, link, Low(b, i + 1)) && head != NULL
  {
    LowIs(b, i);
    link, head := link0[i := NULL], head0;
    ghost var list := Low(b, i) + [i];
    assert Low(b, i + 1) == list;
    if head == NULL {
      head := i;
      assert Chain(NULL, link, []) && Chain(head, link, [i]);
      assert list == [i];
    } else {
      link := link[prev := i];
      assert link == link0[prev := i][i := NULL];
      ChainAppend(head, link0, Low(b, i), i);
      if i - 1 == prev {
        assert link[i - 1 := i] == link;
      } else {
        ChainFrame(head, link, list, i - 1, i);
      }
      link := link[i - 1 := i];
    }
  }

  /** Beyond the hole: the pages are linked behind track, wherever that is. */
  method LinkHigh(b: Board, refs0: seq<nat>, link0: seq<int>, head: int) returns (refs: seq<nat>, link: seq<int>)
    requires Sane(b) && |refs0| == |link0| == b.npages && Chain(head, link0, Low(b, b.base))
    ensures |refs| == |link| == b.npages && Chain(head, link, FreePages(b))
    ensures forall f: nat :: f < b.npages ==> refs[f] == if b.kernEnd <= f then 0 else refs0[f]
  {
    refs, link := refs0, link0;
    ghost var low := Low(b, b.base);
    assert low + High(b, b.kernEnd) == low;
    var i, track := b.kernEnd, b.base - 1;
    while i < b.npages
      invariant b.kernEnd <= i && (i <= b.npages || i == b.kernEnd) && |refs| == |link| == b.npages
      invariant if HighJoined(b) then Chain(head, link, low + High(b, i)) else Chain(head, link, low)
      invariant track == (if i == b.kernEnd then b.base - 1 else i - 1)
      invariant forall f: nat :: f < b.npages ==> refs[f] == if b.kernEnd <= f < i then 0 else refs0[f]
    {
      link := AppendHigh(b, link, head, i, track);
      refs := refs[i := 0];
      track := i;
      i := i + 1;
    }
  }

  method AppendHigh(b: Board, link0: seq<int>, head: int, i: nat, track: nat) returns (link: seq<int>)
    requires Sane(b) && b.kernEnd <= i < b.npages == |link0|
    requires if HighJoined(b) then Chain(head, link0, Low(b, b.base) + High(b, i)) else Chain(head, link0, Low(b, b.base))
    requires track == if i == b.kernEnd then b.base - 1 else i - 1
    ensures |link| == |link0|
    ensures
      if HighJoined(b) then Chain(head, link, Low(b, b.base) + High(b, i + 1)) else Chain(head, link, Low(b, b.base))
  {
    link := link0[i := NULL];
    link := link[track := i];
    ghost var low, list := Low(b, b.base), Low(b, b.base) + High(b, i);
    LowIs(b, b.base);
    HighIs(b, i);
    if HighJoined(b) {
      assert list[|list| - 1] == track;
      assert Distinct(list);
      assert link == link0[track := i][i := NULL];
      ChainAppend(head, link0, list, i);
      assert low + High(b, i + 1) == list + [i];
    } else {
      ChainFrame(head, link0, low, i, NULL);
      ChainFrame(head, link0[i := NULL], low, track, i);
    }
  }

  /** The flat state with nothing allocated. */
  ghost function Initial(b: Board, refs: seq<nat>): Vm {
    Vm(map[], map[], refs, FreePages(b), set f: nat | f < |refs| && !Usable(b, f))
  }

  lemma ConcatDistinct(s: seq<nat>, t: seq<nat>)
    requires Distinct(s) && Distinct(t) && forall i, j :: 0 <= i < |s| && 0 <= j < |t| ==> s[i] < t[j]
    ensures Distinct(s + t)
  {
  }

  lemma FreePagesAre(b: Board)
    requires Sane(b)
    ensures Distinct(FreePages(b))
    ensures forall f: nat :: f in FreePages(b) <==> Usable(b, f) && (f < b.base || HighJoined(b))
  {
    LowIs(b, b.base);
    HighIs(b, b.npages);
    ConcatDistinct(Low(b, b.base), High(b, b.npages));
    assert forall f: nat :: f in Low(b, b.base) + High(b, b.npages) <==> f in Low(b, b.base) || f in High(b, b.npages);
  }

  /** What page_init leaves meets the invariant; every usable frame is on the free list
      exactly when the last base page is on it or there is nothing beyond the hole. */
  lemma InitialInv(b: Board, refs: seq<nat>)
    requires Sane(b) && |refs| == b.npages
    requires forall f: nat :: f < b.npages && Usable(b, f) ==> refs[f] == 0
    ensures Inv(Initial(b, refs))
    ensures (forall f: nat {:trigger LeakedAt(Initial(b, refs), f)} :: !LeakedAt(Initial(b, refs), f)) <==>
            HighJoined(b) || b.npages <= b.kernEnd
  {
    var vm := Initial(b, refs);
    FreePagesAre(b);
    forall f: nat ensures CountedAt(vm, f) {
      CountZero(vm.names, f);
    }
    if !HighJoined(b) && b.kernEnd < b.npages {
      assert LeakedAt(vm, b.kernEnd);
    }
  }

  /** page_init, on the zeroed pages[], and the allocator it starts. */
  method PageInit(b: Board, lay: Layout, kernDir: seq<Word>, mem: Memory, envs: nat) returns (p: PhysMem)
    requires Sane(b) && |mem| == b.npages
    requires |kernDir| == lay.entries && lay.userDirs <= lay.entries
    requires forall i :: 0 <= i < lay.userDirs ==> kernDir[i] == ZERO
    requires forall f :: 0 <= f < |mem| ==> |mem[f]| == lay.entries
    ensures fresh(p) && p.Valid() && p.mem == mem && |p.refs| == b.npages
    ensures p.vm == Initial(b, p.refs)
    ensures forall f: nat :: f < b.npages ==> p.refs[f] == if Usable(b, f) || f == 0 then 0 else 1
  {
    var refs, link := seq(b.npages, f => 0), seq(b.npages, f => NULL);
    var i := 1;
    while i < b.npages
      invariant 1 <= i <= b.npages && |refs| == |link| == b.npages
      invariant forall f: nat :: f < b.npages ==> refs[f] == if 1 <= f < i then 1 else 0
    {
      refs := refs[i := 1];
      link := link[i := NULL];
      i := i + 1;
    }
    var head;
    refs, link, head := LinkLow(b, refs, link);
    refs, link := LinkHigh(b, refs, link, head);
    InitialInv(b, refs);
    p := new PhysMem(lay, kernDir, mem, refs, link, head, envs, Initial(b, refs));
  }
}
