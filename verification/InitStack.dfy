/** lib/spawn.c: init_stack packs a child's arguments into one stack page, and the
    child's start-up code unpacks them by following the pointers in it. */
module InitStack {
  import opened Machine
  import opened Options

  type Chars = seq<nat>

  predicate IsString(s: Chars) {
    forall k :: 0 <= k < |s| ==> 0 < s[k] < 256
  }

  /** The page size, the parent's address of the page while it is filled, and the
      child's address of it afterwards. */
  datatype Where = Where(pg: nat, utemp: nat, child: nat)

  predicate Placed(w: Where) {
    && 0 < w.pg && w.pg % 4 == 0 && w.utemp % 4 == 0 && w.utemp < w.child && w.child + w.pg < SIZE
  }

  /** Bytes taken by the strings from the i-th on, each with its terminator. */
  function Tail(args: seq<Chars>, i: nat): nat
    requires i <= |args|
    decreases |args| - i
  {
    if i == |args| then 0 else |args[i]| + 1 + Tail(args, i + 1)
  }

  /** Everything the page must hold. */
  function Need(args: seq<Chars>): nat {
    RoundUp(Tail(args, 0)) + 4 * (|args| + 1) + 8
  }

  function RoundUp(n: nat): nat {
    (n + 3) / 4 * 4
  }

  /** Offsets in the page: of string i, of the argv array, of the two words below it. */
  function StringOffset(w: Where, args: seq<Chars>, i: nat): int
    requires i <= |args|
  {
    w.pg - Tail(args, i)
  }

  function EspOffset(w: Where, args: seq<Chars>): int {
    w.pg - Need(args)
  }

  function ArgvOffset(w: Where, args: seq<Chars>): int {
    EspOffset(w, args) + 8
  }

  lemma {:induction false} TailMono(args: seq<Chars>, i: nat, j: nat)
    requires i <= j <= |args|
    ensures Tail(args, j) <= Tail(args, i)
    ensures i < j ==> Tail(args, i) >= Tail(args, j) + |args[i]| + 1
    decreases j - i
  {
    if i < j {
      TailMono(args, i + 1, j);
    }
  }

  // ----- the child's side -----

  /** The C string at a, unless it runs off the end. */
  function CString(mem: Mem, a: nat): Option<Chars>
    requires a <= |mem|
    decreases |mem| - a
  {
    if a == |mem| then None
    else if mem[a] == 0 then Some([])
    else
      match CString(mem, a + 1)
      case None => None
      case Some(rest) => Some([mem[a]] + rest)
  }

  predicate StringAt(mem: Mem, a: nat, s: Chars) {
    && a + |s| < |mem|
    && (forall k :: 0 <= k < |s| ==> mem[a + k] == s[k])
    && mem[a + |s|] == 0
  }

  lemma {:induction false} CStringIs(mem: Mem, a: nat, s: Chars)
    requires StringAt(mem, a, s) && IsString(s)
    ensures CString(mem, a) == Some(s)
    decreases |s|
  {
    if s != [] {
      assert s[0] == mem[a + 0];
      forall k | 0 <= k < |s[1..]| ensures mem[a + 1 + k] == s[1..][k] {
        assert mem[a + (k + 1)] == s[k + 1];
      }
      CStringIs(mem, a + 1, s[1..]);
      assert s == [s[0]] + s[1..];
    }
  }

  /** A word of the page at a child address, if the address is in the page. */
  function Load(w: Where, page: Mem, addr: int): int
    requires |page| == w.pg
  {
    if w.child <= addr && addr + 4 <= w.child + w.pg then Get(page, addr - w.child) else -1
  }

  function LoadString(w: Where, page: Mem, addr: int): Option<Chars>
    requires |page| == w.pg
  {
    if w.child <= addr < w.child + w.pg then CString(page, addr - w.child) else None
  }

  /** Starting from esp: argc is on top, argv below it, and argv[i] points to string i. */
  predicate Unpacks(w: Where, page: Mem, esp: int, args: seq<Chars>)
    requires |page| == w.pg
  {
    && Load(w, page, esp) == |args|
    && var argv := Load(w, page, esp + 4);
    && (forall i :: 0 <= i < |args| ==> LoadString(w, page, Load(w, page, argv + 4 * i)) == Some(args[i]))
    && Load(w, page, argv + 4 * |args|) == 0
  }

  // ----- filling the page -----

  /** Arguments up to i are in place. */
  predicate Filled(w: Where, page: Mem, args: seq<Chars>, i: nat)
    requires i <= |args|
  {
    && |page| == w.pg && Need(args) <= w.pg
    && (forall j: nat {:trigger ArgIn(w, page, args, j)} :: j < i ==> ArgIn(w, page, args, j))
  }

  /** Pointer j and string j are in place. */
  predicate ArgIn(w: Where, page: Mem, args: seq<Chars>, j: nat)
    requires j < |args| && |page| == w.pg && Need(args) <= w.pg
  {
    match w
    case Where(_, _, child) =>
      && 0 <= StringOffset(w, args, j)
      && Get(page, ArgvOffset(w, args) + 4 * j) == child + StringOffset(w, args, j)
      && StringAt(page, StringOffset(w, args, j), args[j])
  }

  /** mem' is mem outside [lo, hi). */
  predicate Outside(mem: Mem, mem': Mem, lo: int, hi: int) {
    |mem'| == |mem| && forall x :: 0 <= x < |mem| && (x < lo || hi <= x) ==> mem'[x] == mem[x]
  }

  /** A stored word reads back, and nothing else changes. */
  lemma WordPut(mem: Mem, a: nat, v: nat)
    requires a + 4 <= |mem| && v < SIZE
    ensures Outside(mem, Put(mem, a, v), a, a + 4) && Get(Put(mem, a, v), a) == v
  {
    GetPutSame(mem, a, v);
    forall x | 0 <= x < |mem| && (x < a || a + 4 <= x) ensures Put(mem, a, v)[x] == mem[x] {
      PutFrame(mem, a, v, x);
    }
  }

  lemma GetOutside(mem: Mem, mem': Mem, lo: int, hi: int, a: nat)
    requires Outside(mem, mem', lo, hi) && a + 4 <= |mem| && (a + 4 <= lo || hi <= a)
    ensures Get(mem', a) == Get(mem, a)
  {
    GetBytesSame(mem, mem', a, a + 4);
  }

  /** strcpy, with its terminator. */
  method StrCpy(mem: Mem, a: nat, s: Chars) returns (r: Mem)
    requires a + |s| < |mem|
    ensures StringAt(r, a, s) && Outside(mem, r, a, a + |s| + 1)
  {
    r := mem;
    var k := 0;
    while k < |s|
      invariant k <= |s| && |r| == |mem|
      invariant forall j :: 0 <= j < k ==> r[a + j] == s[j]
      invariant Outside(mem, r, a, a + k)
    {
      r := r[a + k := s[k]];
      k := k + 1;
    }
    r := r[a + |s| := 0];
  }

  /** The strings lie above the argv array, one after the other. */
  lemma Apart(w: Where, args: seq<Chars>, j: nat, i: nat)
    requires j <= i <= |args| && Need(args) <= w.pg
    ensures ArgvOffset(w, args) + 4 * (|args| + 1) <= StringOffset(w, args, j) <= StringOffset(w, args, i) <= w.pg
    ensures j < i ==> StringOffset(w, args, j) + |args[j]| + 1 <= StringOffset(w, args, i)
  {
    TailMono(args, 0, j);
    TailMono(args, j, i);
  }

  /** What was in place stays so when only the bytes [lo, hi) change, between the last
      pointer and string i, or from string i up. */
  lemma FilledOutside(w: Where, mem: Mem, mem': Mem, args: seq<Chars>, i: nat, lo: int, hi: int)
    requires i <= |args| && Filled(w, mem, args, i) && Outside(mem, mem', lo, hi)
    requires
      || (ArgvOffset(w, args) + 4 * i <= lo && hi <= StringOffset(w, args, 0))
      || hi <= ArgvOffset(w, args)
      || StringOffset(w, args, i) <= lo
    ensures Filled(w, mem', args, i)
  {
    forall j: nat | j < i ensures ArgIn(w, mem', args, j) {
      assert ArgIn(w, mem, args, j);
      Apart(w, args, 0, j);
      Apart(w, args, j, i);
      GetOutside(mem, mem', lo, hi, ArgvOffset(w, args) + 4 * j);
    }
  }

  /** One turn of the loop: argv[i] gets the child's address of the bytes at
      offset store, and string i goes there. */
  method PutArg(w: Where, mem: Mem, args: seq<Chars>, i: nat, argv: nat, store: nat) returns (r: Mem)
    requires Placed(w) && i < |args| && Filled(w, mem, args, i)
    requires argv == ArgvOffset(w, args) && store == StringOffset(w, args, i)
    ensures Filled(w, r, args, i + 1) && Outside(mem, r, argv, w.pg)
  {
    var a := argv + 4 * i;
    Apart(w, args, 0, i);
    Apart(w, args, i, i + 1);
    var mem1 := PutWord(w, mem, args, i, a, w.child + store);
    r := StrCpy(mem1, store, args[i]);
    OneMore(w, mem1, r, args, i, argv, store);
  }

  /** A word stored clear of what is in place. */
  method PutWord(w: Where, mem: Mem, args: seq<Chars>, i: nat, a: nat, v: nat) returns (r: Mem)
    requires i <= |args| && Filled(w, mem, args, i) && a + 4 <= w.pg && v < SIZE
    requires
      || (ArgvOffset(w, args) + 4 * i <= a && a + 4 <= StringOffset(w, args, 0))
      || a + 4 <= ArgvOffset(w, args)
    ensures Filled(w, r, args, i) && Outside(mem, r, a, a + 4) && Get(r, a) == v
  {
    r := Put(mem, a, v);
    WordPut(mem, a, v);
    FilledOutside(w, mem, r, args, i, a, a + 4);
  }

  lemma OneMore(w: Where, mem1: Mem, r: Mem, args: seq<Chars>, i: nat, argv: nat, store: nat)
    requires i < |args| && Filled(w, mem1, args, i)
    requires argv == ArgvOffset(w, args) && store == StringOffset(w, args, i)
    requires argv + 4 * (i + 1) <= store
    requires Get(mem1, argv + 4 * i) == w.child + store
    requires StringAt(r, store, args[i]) && Outside(mem1, r, store, store + |args[i]| + 1)
    ensures Filled(w, r, args, i + 1)
  {
    FilledOutside(w, mem1, r, args, i, store, store + |args[i]| + 1);
    GetOutside(mem1, r, store, store + |args[i]| + 1, argv + 4 * i);
    assert ArgIn(w, r, args, i);
  }

  /** The finishing words: argv[argc] = 0, argv[-1] = argv, argv[-2] = argc. */
  method PutEnds(w: Where, mem: Mem, args: seq<Chars>, argv: nat) returns (r: Mem)
    requires Placed(w) && Filled(w, mem, args, |args|) && argv == ArgvOffset(w, args)
    ensures Filled(w, r, args, |args|) && Outside(mem, r, argv - 8, w.pg)
    ensures Get(r, argv + 4 * |args|) == 0 && Get(r, argv - 4) == w.child + argv && Get(r, argv - 8) == |args|
  {
    var end := argv + 4 * |args|;
    Apart(w, args, 0, |args|);
    var mem1 := PutWord(w, mem, args, |args|, end, 0);
    var mem2 := PutWord(w, mem1, args, |args|, argv - 4, w.child + argv);
    r := PutWord(w, mem2, args, |args|, argv - 8, |args|);
    GetOutside(mem1, mem2, argv - 4, argv, end);
    GetOutside(mem2, r, argv - 8, argv - 4, end);
    GetOutside(mem2, r, argv - 8, argv - 4, argv - 4);
  }

  lemma ArgUnpacks(w: Where, page: Mem, args: seq<Chars>, i: nat)
    requires Placed(w) && i < |args| && Filled(w, page, args, |args|) && IsString(args[i])
    ensures LoadString(w, page, Load(w, page, w.child + ArgvOffset(w, args) + 4 * i)) == Some(args[i])
  {
    assert ArgIn(w, page, args, i);
    Apart(w, args, 0, i);
    Apart(w, args, i, i + 1);
    CStringIs(page, StringOffset(w, args, i), args[i]);
  }

  /** A complete page unpacks to the arguments it was made from. */
  lemma FilledUnpacks(w: Where, page: Mem, args: seq<Chars>, argv: nat)
    requires Placed(w) && Filled(w, page, args, |args|) && forall i :: 0 <= i < |args| ==> IsString(args[i])
    requires argv == ArgvOffset(w, args)
    requires Get(page, argv + 4 * |args|) == 0 && Get(page, argv - 4) == w.child + argv && Get(page, argv - 8) == |args|
    ensures Unpacks(w, page, w.child + argv - 8, args)
  {
    Apart(w, args, 0, |args|);
    forall i | 0 <= i < |args|
      ensures LoadString(w, page, Load(w, page, w.child + argv + 4 * i)) == Some(args[i])
    {
      ArgUnpacks(w, page, args, i);
    }
  }

  // ----- the placement check -----

  /** 32-bit arithmetic: a sum or difference, wrapped once. */
  function W32(x: int): int {
    if x < 0 then x + SIZE else if x >= SIZE then x - SIZE else x
  }

  function RoundDown(n: int): int {
    n - n % 4
  }

  /** The lowest address init_stack is about to write, as it computes it. */
  function Lowest(w: Where, size: nat, argc: nat): int {
    var stringStore := W32(w.utemp + w.pg - size);
    var argvStore := W32(RoundDown(stringStore) - 4 * (argc + 1));
    W32(argvStore - 8)
  }

  lemma RoundDownIs(top: int, n: nat)
    requires top % 4 == 0
    ensures RoundDown(top - n) == top - RoundUp(n)
  {
  }

  lemma WrapTwice(x: nat, a: nat, b: nat)
    requires x < SIZE && a + b < SIZE
    ensures W32(W32(x - a) - b) == W32(x - (a + b))
  {
  }

  lemma WrapRound(top: nat, n: nat)
    requires top % 4 == 0 && top < SIZE && RoundUp(n) < SIZE
    ensures RoundDown(W32(top - n)) == W32(top - RoundUp(n))
  {
    RoundDownIs(top, n);
    RoundDownIs(top + SIZE, n);
  }

  lemma WrapThrice(top: nat, u: nat, c: nat)
    requires top < SIZE && u + c + 8 < SIZE
    ensures W32(W32(W32(top - u) - c) - 8) == W32(top - (u + c + 8))
  {
    WrapTwice(top, u, c);
    WrapTwice(top, u + c, 8);
  }

  /** The check, for a page whose top is at top and that is to hold need bytes. */
  lemma Verdict(utemp: nat, pg: nat, need: nat)
    requires utemp + pg < SIZE && need < SIZE
    ensures W32(utemp + pg - need) < utemp <==> pg < need <= utemp + pg
    ensures W32(utemp + pg - need) >= utemp + pg <==> utemp + pg < need || need == 0
  {
  }

  lemma LowestFrom(w: Where, size: nat, argc: nat, u: nat)
    requires w.utemp + w.pg < SIZE && u + 4 * (argc + 1) + 8 < SIZE
    requires RoundDown(W32(w.utemp + w.pg - size)) == W32(w.utemp + w.pg - u)
    ensures Lowest(w, size, argc) == W32(w.utemp + w.pg - (u + 4 * (argc + 1) + 8))
  {
    WrapThrice(w.utemp + w.pg, u, 4 * (argc + 1));
  }

  lemma LowestAt(w: Where, size: nat, argc: nat)
    requires Placed(w) && RoundUp(size) + 4 * (argc + 1) + 8 < SIZE
    ensures Lowest(w, size, argc) == W32(w.utemp + w.pg - (RoundUp(size) + 4 * (argc + 1) + 8))
  {
    WrapRound(w.utemp + w.pg, size);
    LowestFrom(w, size, argc, RoundUp(size));
  }

  /** What init_stack does: refuse, leave a page and a stack pointer, or write outside the page. */
  datatype Result = NoMem | Ready(page: Mem, esp: nat) | Stray

  /** The counting loop. */
  method Measure(args: seq<Chars>) returns (argc: nat, stringSize: nat)
    requires Tail(args, 0) < SIZE
    ensures argc == |args| && stringSize == Tail(args, 0)
  {
    argc, stringSize := 0, 0;
    while argc < |args|
      invariant argc <= |args| && stringSize + Tail(args, argc) == Tail(args, 0)
    {
      stringSize := W32(stringSize + |args[argc]| + 1);
      argc := argc + 1;
    }
  }

  /** The filling loop. */
  method Fill(w: Where, args: seq<Chars>, argv: nat, start: nat) returns (page: Mem)
    requires Placed(w) && Need(args) <= w.pg
    requires argv == ArgvOffset(w, args) && start == StringOffset(w, args, 0)
    ensures Filled(w, page, args, |args|)
    ensures forall x :: 0 <= x < argv ==> page[x] == 0
  {
    var blank := seq(w.pg, x => 0);
    page := blank;
    var i, store := 0, start;
    while i < |args|
      invariant i <= |args| && store == StringOffset(w, args, i)
      invariant Filled(w, page, args, i) && Outside(blank, page, argv, w.pg)
    {
      Apart(w, args, 0, i);
      page := PutArg(w, page, args, i, argv, store);
      store := store + |args[i]| + 1;
      i := i + 1;
    }
  }

  /** init_stack on a fresh zeroed page. */
  method InitStack(w: Where, args: seq<Chars>) returns (r: Result)
    requires Placed(w) && Need(args) < SIZE
    requires forall i :: 0 <= i < |args| ==> IsString(args[i])
    ensures r.NoMem? <==> w.pg < Need(args) <= w.utemp + w.pg
    ensures r.Stray? <==> w.utemp + w.pg < Need(args)
    ensures r.Ready? ==>
              && |r.page| == w.pg && r.esp == w.child + w.pg - Need(args)
              && Unpacks(w, r.page, r.esp, args)
              && forall x :: 0 <= x < w.pg - Need(args) ==> r.page[x] == 0
  {
    var argc, stringSize := Measure(args);
    var lowest := Lowest(w, stringSize, argc);
    LowestAt(w, stringSize, argc);
    Verdict(w.utemp, w.pg, Need(args));
    if lowest < w.utemp {
      return NoMem;
    }
    if lowest >= w.utemp + w.pg {
      return Stray;
    }
    var argv := lowest + 8 - w.utemp;
    var page := Fill(w, args, argv, w.pg - stringSize);
    page := PutEnds(w, page, args, argv);
    FilledUnpacks(w, page, args, argv);
    return Ready(page, w.child + argv - 8);
  }

  /** The check passes for an argument list too long for the address space below the
      page, so the writes land elsewhere: one argument of that many bytes is enough. */
  lemma LongArgumentStrays(w: Where, s: Chars)
    requires Placed(w) && IsString(s) && |s| == w.utemp + w.pg && Need([s]) < SIZE
    ensures Lowest(w, Tail([s], 0), 1) >= w.utemp + w.pg
  {
    LowestAt(w, Tail([s], 0), 1);
    Verdict(w.utemp, w.pg, Need([s]));
  }
}
