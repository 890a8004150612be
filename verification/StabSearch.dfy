/** kern/kdebug.c: stab_binsearch, a binary search over the stabs of one type in
    a table that interleaves many types. */
module StabSearch {

  const WORD: nat := 0x1_0000_0000

  datatype Stab = Stab(ty: nat, value: nat)

  predicate Words(stabs: seq<Stab>) {
    forall i {:trigger stabs[i]} :: 0 <= i < |stabs| ==> stabs[i].value < WORD
  }

  predicate Is(stabs: seq<Stab>, ty: nat, i: int) {
    0 <= i < |stabs| && stabs[i].ty == ty
  }

  /** The values of the stabs of the type in [lo, hi] never fall. */
  predicate Rising(stabs: seq<Stab>, ty: nat, lo: int, hi: int) {
    forall i, j {:trigger Is(stabs, ty, i), Is(stabs, ty, j)} ::
      lo <= i <= j <= hi && Is(stabs, ty, i) && Is(stabs, ty, j) ==> stabs[i].value <= stabs[j].value
  }

  predicate Has(stabs: seq<Stab>, ty: nat, lo: int, hi: int, v: nat) {
    exists i {:trigger Is(stabs, ty, i)} :: lo <= i <= hi && Is(stabs, ty, i) && stabs[i].value == v
  }

  predicate NoneIn(stabs: seq<Stab>, ty: nat, lo: int, hi: int) {
    forall i {:trigger Is(stabs, ty, i)} :: lo <= i <= hi ==> !Is(stabs, ty, i)
  }

  /** No stab of the type sits at the address that addr++ moves on to. */
  predicate Gap(stabs: seq<Stab>, ty: nat, lo: int, hi: int, addr: nat) {
    Has(stabs, ty, lo, hi, addr) ==> addr + 1 < WORD && !Has(stabs, ty, lo, hi, addr + 1)
  }

  /** right is just before the first stab of the type above addr, or the end. */
  predicate RightEdge(stabs: seq<Stab>, ty: nat, lo: int, hi: int, addr: nat, right: int) {
    && lo - 1 <= right <= hi
    && (right == hi || Is(stabs, ty, right + 1))
    && (forall i {:trigger Is(stabs, ty, i)} :: lo <= i <= hi && Is(stabs, ty, i) ==>
          (i <= right <==> stabs[i].value <= addr))
  }

  /** left is the last stab of the type up to right, if there is one. */
  predicate LeftEdge(stabs: seq<Stab>, ty: nat, lo: int, right: int, left: int) {
    if NoneIn(stabs, ty, lo, right) then left == if right < lo then right else lo
    else lo <= left <= right && Is(stabs, ty, left) && NoneIn(stabs, ty, left + 1, right)
  }

  /** The inner loop: the last stab of the type in [l, from], or l - 1. */
  method LastOfType(stabs: seq<Stab>, ty: nat, l: int, from: int) returns (m: int)
    requires 0 <= l <= from + 1 && from < |stabs|
    ensures l - 1 <= m <= from && NoneIn(stabs, ty, m + 1, from)
    ensures m >= l ==> Is(stabs, ty, m)
  {
    m := from;
    while m >= l && stabs[m].ty != ty
      invariant l - 1 <= m <= from && NoneIn(stabs, ty, m + 1, from)
    {
      m := m - 1;
    }
  }

  /** The closing loop: back from right to the last stab of the type, not past left. */
  method BackTo(stabs: seq<Stab>, ty: nat, left: int, right: int) returns (l: int)
    requires 0 <= left && right < |stabs|
    ensures NoneIn(stabs, ty, l + 1, right)
    ensures if right < left then l == right else left <= l <= right && (l == left || Is(stabs, ty, l))
  {
    l := right;
    while l > left && stabs[l].ty != ty
      invariant l <= right && (right < left ==> l == right) && (left <= right ==> left <= l)
      invariant NoneIn(stabs, ty, l + 1, right)
    {
      l := l - 1;
    }
  }

  /** What is searched for, and where the search stands: [l, r] is left, region_left
      and region_right are as stored, addr as moved on. */
  datatype Query = Query(stabs: seq<Stab>, ty: nat, lo: int, hi: int, addr: nat)

  datatype Spot = Spot(l: int, r: int, left: int, addr: nat)

  predicate Good(q: Query) {
    && 0 <= q.lo && q.hi < |q.stabs| && q.addr < WORD
    && Rising(q.stabs, q.ty, q.lo, q.hi) && Gap(q.stabs, q.ty, q.lo, q.hi, q.addr)
  }

  /** Everything of the type below l is at or below the address, everything above r is
      beyond it, and region_left is a stab at or below it. */
  ghost predicate Knows(q: Query, s: Spot) {
    match q
    case Query(stabs, ty, lo, hi, addr) =>
      && lo <= s.l && lo - 1 <= s.r <= hi
      && (s.addr == addr || (s.addr == addr + 1 && Has(stabs, ty, lo, hi, addr)))
      && (forall i {:trigger Is(stabs, ty, i)} :: lo <= i < s.l && i <= hi && Is(stabs, ty, i) ==> stabs[i].value <= addr)
      && (forall i {:trigger Is(stabs, ty, i)} :: s.r < i <= hi && lo <= i && Is(stabs, ty, i) ==> stabs[i].value > addr)
      && (s.r == hi || Is(stabs, ty, s.r + 1))
      && (s.left == lo || (lo <= s.left <= hi && Is(stabs, ty, s.left) && stabs[s.left].value <= addr))
  }

  lemma NothingKeeps(q: Query, s: Spot, trueM: int)
    requires Knows(q, s) && s.l <= trueM && NoneIn(q.stabs, q.ty, s.l, trueM)
    ensures Knows(q, s.(l := trueM + 1))
  {
  }

  lemma BelowKeeps(q: Query, s: Spot, m: int, trueM: int)
    requires Good(q) && Knows(q, s) && s.l <= m <= trueM <= s.r
    requires Is(q.stabs, q.ty, m) && NoneIn(q.stabs, q.ty, m + 1, trueM) && q.stabs[m].value < s.addr
    ensures Knows(q, s.(left := m, l := trueM + 1))
  {
  }

  lemma AboveKeeps(q: Query, s: Spot, m: int)
    requires Good(q) && Knows(q, s) && s.l <= m <= s.r && Is(q.stabs, q.ty, m) && q.stabs[m].value > s.addr
    ensures Knows(q, s.(r := m - 1))
  {
  }

  /** An exact hit is at addr itself: addr + 1 is not there. */
  lemma HitKeeps(q: Query, s: Spot, m: int)
    requires Good(q) && Knows(q, s) && s.l <= m <= s.r && Is(q.stabs, q.ty, m) && q.stabs[m].value == s.addr
    ensures s.addr + 1 < WORD && Knows(q, s.(left := m, l := m, addr := s.addr + 1))
  {
    assert Has(q.stabs, q.ty, q.lo, q.hi, s.addr);
  }

  lemma Concludes(q: Query, s: Spot, left: int)
    requires Good(q) && Knows(q, s) && s.l > s.r
    requires NoneIn(q.stabs, q.ty, left + 1, s.r)
    requires if s.r < s.left then left == s.r else s.left <= left <= s.r && (left == s.left || Is(q.stabs, q.ty, left))
    ensures RightEdge(q.stabs, q.ty, q.lo, q.hi, q.addr, s.r)
    ensures LeftEdge(q.stabs, q.ty, q.lo, s.r, left)
  {
  }

  /** any tells whether a stab of the type has been met; until then nothing moved but l. */
  predicate Met(q: Query, s: Spot, any: bool) {
    match q
    case Query(stabs, ty, lo, hi, _) =>
      && lo <= s.l && lo - 1 <= s.r <= hi && lo <= s.left
      && if any then !NoneIn(stabs, ty, lo, hi) else s.r == hi && s.left == lo && NoneIn(stabs, ty, lo, s.l - 1)
  }

  function Succ(addr: nat): nat {
    if addr + 1 == WORD then 0 else addr + 1
  }

  /** m is the last stab of the type from the middle of [l, r] down to l, or l - 1. */
  predicate Probed(q: Query, s: Spot, m: int) {
    && s.l - 1 <= m <= Middle(s) && NoneIn(q.stabs, q.ty, m + 1, Middle(s))
    && (m >= s.l ==> Is(q.stabs, q.ty, m))
  }

  function Middle(s: Spot): int {
    (s.l + s.r) / 2
  }

  /** Where the search stands after probing m. */
  function Moved(q: Query, s: Spot, m: int): Spot
    requires Probed(q, s, m)
  {
    if m < s.l then s.(l := Middle(s) + 1)
    else if q.stabs[m].value < s.addr then s.(left := m, l := Middle(s) + 1)
    else if q.stabs[m].value > s.addr then s.(r := m - 1)
    else s.(left := m, l := m, addr := Succ(s.addr))
  }

  lemma MovedKeeps(q: Query, s: Spot, m: int)
    requires Good(q) && Knows(q, s) && s.l <= s.r && Probed(q, s, m)
    ensures Knows(q, Moved(q, s, m))
  {
    if m < s.l {
      NothingKeeps(q, s, Middle(s));
    } else if q.stabs[m].value < s.addr {
      BelowKeeps(q, s, m, Middle(s));
    } else if q.stabs[m].value > s.addr {
      AboveKeeps(q, s, m);
    } else {
      HitKeeps(q, s, m);
    }
  }

  /** The stab at l has been hit and addr moved past it, so it cannot be hit again. */
  predicate Passed(q: Query, s: Spot) {
    Is(q.stabs, q.ty, s.l) && Succ(q.stabs[s.l].value) == s.addr
  }

  /** Every turn narrows the range, except a hit at l, which cannot happen twice running. */
  lemma MovedProgresses(q: Query, s: Spot, m: int)
    requires s.l <= s.r && Probed(q, s, m)
    ensures var s' := Moved(q, s, m);
            s'.r - s'.l < s.r - s.l || (s'.r - s'.l == s.r - s.l && !Passed(q, s) && Passed(q, s'))
  {
  }

  lemma MovedMeets(q: Query, s: Spot, any: bool, m: int)
    requires 0 <= q.lo && q.hi < |q.stabs| && Met(q, s, any) && s.l <= s.r && Probed(q, s, m)
    ensures Met(q, Moved(q, s, m), any || m >= s.l)
  {
  }

  /** stab_binsearch. It ends on every table; the region it leaves is the right one when
      the values of the type rise and addr + 1 is not among them. */
  method StabBinsearch(q: Query) returns (left: int, right: int)
    requires 0 <= q.lo <= q.hi + 1 && q.hi < |q.stabs| && Words(q.stabs) && q.addr < WORD
    ensures NoneIn(q.stabs, q.ty, q.lo, q.hi) ==> left == q.lo && right == q.lo - 1
    ensures !NoneIn(q.stabs, q.ty, q.lo, q.hi) && Good(q) ==>
              RightEdge(q.stabs, q.ty, q.lo, q.hi, q.addr, right) && LeftEdge(q.stabs, q.ty, q.lo, right, left)
  {
    var s, any := Spot(q.lo, q.hi, q.lo, q.addr), false;
    while s.l <= s.r
      invariant Met(q, s, any) && s.addr < WORD
      invariant Good(q) ==> Knows(q, s)
      decreases s.r - s.l + 1, if Passed(q, s) then 0 else 1
    {
      var m := LastOfType(q.stabs, q.ty, s.l, Middle(s));
      MovedProgresses(q, s, m);
      MovedMeets(q, s, any, m);
      if Good(q) {
        MovedKeeps(q, s, m);
      }
      any := any || m >= s.l;
      s := Moved(q, s, m);
    }
    if !any {
      return s.left, s.left - 1;
    }
    left := BackTo(q.stabs, q.ty, s.left, s.r);
    if Good(q) {
      Concludes(q, s, left);
    }
    return left, s.r;
  }

  /** With stabs at addr and addr + 1 the search hits both, and takes the second for the
      answer although it lies beyond addr. */
  lemma GapNeeded(v: nat) returns (spots: seq<Spot>)
    requires v + 2 < WORD
    ensures var q := Query([Stab(0, v), Stab(0, v + 1)], 0, 0, 1, v);
            && |spots| == 5 && spots[0] == Spot(0, 1, 0, v) && spots[4] == Spot(2, 1, 1, v + 2)
            && (forall i :: 0 <= i < 4 ==> spots[i].l <= spots[i].r)
            && (forall i :: 0 <= i < 4 ==> Probed(q, spots[i], i / 2) && spots[i + 1] == Moved(q, spots[i], i / 2))
            && !RightEdge(q.stabs, 0, 0, 1, v, spots[4].r)
  {
    var q := Query([Stab(0, v), Stab(0, v + 1)], 0, 0, 1, v);
    spots := [Spot(0, 1, 0, v), Spot(0, 1, 0, v + 1), Spot(1, 1, 0, v + 1), Spot(1, 1, 1, v + 2), Spot(2, 1, 1, v + 2)];
    assert Is(q.stabs, 0, 0) && Is(q.stabs, 0, 1);
  }
}
