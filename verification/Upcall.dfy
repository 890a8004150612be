/** The user-level page fault path: kern/trap.c pushes a UTrapframe on the
    exception stack, lib/pfentry.S calls the handler and unwinds the frame. */
module Upcall {
  import opened Options
  import opened Machine

  // ----- struct UTrapframe -----

  const FRAME_SIZE := 52

  /** Consecutive words. */
  function PutWords(mem: Mem, a: nat, ws: seq<nat>): (r: Mem)
    requires a + 4 * |ws| <= |mem|
    ensures |r| == |mem|
    decreases |ws|
  {
    if ws == [] then mem else PutWords(Put(mem, a, ws[0]), a + 4, ws[1..])
  }

  lemma {:induction false} PutWordsFrame(mem: Mem, a: nat, ws: seq<nat>, x: nat)
    requires a + 4 * |ws| <= |mem| && x < |mem| && (x < a || a + 4 * |ws| <= x)
    ensures PutWords(mem, a, ws)[x] == mem[x]
    decreases |ws|
  {
    if ws != [] {
      PutFrame(mem, a, ws[0], x);
      PutWordsFrame(Put(mem, a, ws[0]), a + 4, ws[1..], x);
    }
  }

  lemma {:induction false} GetPutWords(mem: Mem, a: nat, ws: seq<nat>, i: nat)
    requires a + 4 * |ws| <= |mem| && i < |ws| && ws[i] < SIZE
    ensures Get(PutWords(mem, a, ws), a + 4 * i) == ws[i]
    decreases |ws|
  {
    var mem1 := Put(mem, a, ws[0]);
    if i == 0 {
      GetPutSame(mem, a, ws[0]);
      forall x | a <= x < a + 4 ensures PutWords(mem1, a + 4, ws[1..])[x] == mem1[x] {
        PutWordsFrame(mem1, a + 4, ws[1..], x);
      }
      GetBytesSame(mem1, PutWords(mem1, a + 4, ws[1..]), a, a + 4);
    } else {
      GetPutWords(mem1, a + 4, ws[1..], i - 1);
    }
  }

  /** The words the kernel stores, lowest address first: fault va, error code,
      the pushal registers (with the useless saved esp), eip, eflags, esp. */
  function FrameWords(m: Machine, va: nat, err: nat, oesp: nat): seq<nat> {
    [va, err, m.regs.edi, m.regs.esi, m.regs.ebp, oesp, m.regs.ebx, m.regs.edx, m.regs.ecx, m.regs.eax,
     m.eip, m.eflags, m.esp]
  }

  // ----- _pgfault_upcall after the handler has returned -----

  /** The first half: push the trap-time eip on the trap-time stack and store
      the adjusted stack pointer back into the frame. */
  function PlantReturn(m0: Machine, alu: (nat, nat) -> nat): Machine {
    var m1 := Exec(m0, MovLoad(40, ESP, EAX), alu);
    var m2 := Exec(m1, MovReg(ESP, EBX), alu);
    var m3 := Exec(m2, MovLoad(48, ESP, ESP), alu);
    var m4 := Exec(m3, Pushl(EAX), alu);
    var m5 := Exec(m4, MovStore(ESP, 48, EBX), alu);
    Exec(m5, MovReg(EBX, ESP), alu)
  }

  /** The second half: restore the registers and flags, switch stacks, return. */
  function PopState(m0: Machine, alu: (nat, nat) -> nat): Machine {
    var m1 := Exec(m0, AddEsp(8), alu);
    var m2 := Exec(m1, Popal, alu);
    var m3 := Exec(m2, AddEsp(4), alu);
    var m4 := Exec(m3, Popfl, alu);
    var m5 := Exec(m4, PopEsp, alu);
    Exec(m5, Ret, alu)
  }

  function ReturnSequence(m: Machine, alu: (nat, nat) -> nat): Machine {
    PopState(PlantReturn(m, alu), alu)
  }

  /** The frame at u holds the registers and flags of m... */
  predicate SavedRegs(mem: Mem, u: nat, m: Machine)
    requires u + FRAME_SIZE <= |mem|
  {
    && Get(mem, u + 8) == m.regs.edi && Get(mem, u + 12) == m.regs.esi && Get(mem, u + 16) == m.regs.ebp
    && Get(mem, u + 24) == m.regs.ebx && Get(mem, u + 28) == m.regs.edx && Get(mem, u + 32) == m.regs.ecx
    && Get(mem, u + 36) == m.regs.eax && Get(mem, u + 44) == m.eflags
  }

  /** ... and its eip and esp. */
  predicate Saved(mem: Mem, u: nat, m: Machine)
    requires u + FRAME_SIZE <= |mem|
  {
    SavedRegs(mem, u, m) && Get(mem, u + 40) == m.eip && Get(mem, u + 48) == m.esp
  }

  /** Memory as the unwinding leaves it: the return address below the trap-time
      stack pointer, and the adjusted stack pointer in the frame. */
  function Unwound(mem: Mem, u: nat, m: Machine): Mem
    requires 4 <= m.esp <= |mem| && u + FRAME_SIZE <= |mem|
  {
    Put(Put(mem, m.esp - 4, m.eip), u + 48, m.esp - 4)
  }

  /** Is the scratch word below the trap-time stack pointer clear of the frame? */
  predicate Clear(u: nat, esp: nat) {
    esp <= u || u + FRAME_SIZE + 4 <= esp
  }

  lemma UnwoundGets(mem: Mem, u: nat, m: Machine, off: nat)
    requires 4 <= m.esp <= |mem| && u + FRAME_SIZE <= |mem| && off + 4 <= 48
    requires Clear(u, m.esp) || m.esp == u + FRAME_SIZE
    ensures Get(Unwound(mem, u, m), u + off) == Get(mem, u + off)
  {
    GetPutOther(mem, m.esp - 4, m.eip, u + off);
    GetPutOther(Put(mem, m.esp - 4, m.eip), u + 48, m.esp - 4, u + off);
  }

  lemma PlantReturnEffect(b: Machine, u: nat, m: Machine, alu: (nat, nat) -> nat)
    requires |b.mem| == SIZE && b.esp == u && u + FRAME_SIZE <= SIZE && m.esp < SIZE && m.esp >= 4
    requires Get(b.mem, u + 40) == m.eip && Get(b.mem, u + 48) == m.esp
    ensures PlantReturn(b, alu) == b.(regs := b.regs.(eax := m.eip, ebx := u), mem := Unwound(b.mem, u, m))
  {
  }

  lemma PopRegs(b: Machine, u: nat, m: Machine, alu: (nat, nat) -> nat)
    requires |b.mem| == SIZE && b.esp == u && u + FRAME_SIZE <= SIZE && SavedRegs(b.mem, u, m)
    ensures Exec(Exec(b, AddEsp(8), alu), Popal, alu) == b.(regs := m.regs, esp := u + 40, eflags := alu(u, 8))
  {
    assert Exec(b, AddEsp(8), alu) == b.(esp := u + 8, eflags := alu(u, 8));
  }

  lemma PopStateEffect(b: Machine, u: nat, m: Machine, alu: (nat, nat) -> nat)
    requires |b.mem| == SIZE && b.esp == u && u + FRAME_SIZE <= SIZE && m.esp < SIZE && m.esp >= 4
    requires SavedRegs(b.mem, u, m) && Get(b.mem, u + 48) == m.esp - 4
    ensures PopState(b, alu) == Machine(m.regs, m.esp, Get(b.mem, m.esp - 4), m.eflags, b.mem)
  {
    PopRegs(b, u, m, alu);
    PopFlags(Exec(Exec(b, AddEsp(8), alu), Popal, alu), u, m, alu);
  }

  lemma PopFlags(b: Machine, u: nat, m: Machine, alu: (nat, nat) -> nat)
    requires |b.mem| == SIZE && b.esp == u + 40 && u + FRAME_SIZE <= SIZE && m.esp < SIZE && m.esp >= 4
    requires Get(b.mem, u + 44) == m.eflags && Get(b.mem, u + 48) == m.esp - 4
    ensures Exec(Exec(Exec(Exec(b, AddEsp(4), alu), Popfl, alu), PopEsp, alu), Ret, alu) ==
            Machine(b.regs, m.esp, Get(b.mem, m.esp - 4), m.eflags, b.mem)
  {
  }

  lemma UnwoundRegs(mem: Mem, u: nat, m: Machine)
    requires |mem| == SIZE && u + FRAME_SIZE <= SIZE && 4 <= m.esp < SIZE && SavedRegs(mem, u, m)
    requires Clear(u, m.esp) || m.esp == u + FRAME_SIZE
    ensures SavedRegs(Unwound(mem, u, m), u, m)
  {
    UnwoundGets(mem, u, m, 8);
    UnwoundGets(mem, u, m, 12);
    UnwoundGets(mem, u, m, 16);
    UnwoundGets(mem, u, m, 24);
    UnwoundGets(mem, u, m, 28);
    UnwoundGets(mem, u, m, 32);
    UnwoundGets(mem, u, m, 36);
    UnwoundGets(mem, u, m, 44);
  }

  lemma UnwoundScratch(mem: Mem, u: nat, m: Machine)
    requires |mem| == SIZE && u + FRAME_SIZE <= SIZE && Words(m) && m.esp >= 4
    requires Clear(u, m.esp) || m.esp == u + FRAME_SIZE
    ensures var r := Unwound(mem, u, m);
      && Get(r, u + 48) == m.esp - 4
      && Get(r, m.esp - 4) == if m.esp == u + FRAME_SIZE then m.esp - 4 else m.eip
  {
    var mem1 := Put(mem, m.esp - 4, m.eip);
    GetPutSame(mem1, u + 48, m.esp - 4);
    if m.esp != u + FRAME_SIZE {
      GetPutSame(mem, m.esp - 4, m.eip);
      GetPutOther(mem1, u + 48, m.esp - 4, m.esp - 4);
    }
  }

  /** The whole return sequence. Every register, the flags and the stack pointer
      come back; so does eip, unless the scratch word is the frame's own last
      word, when the code jumps to that word's address instead. */
  lemma ReturnRestores(b: Machine, u: nat, m: Machine, alu: (nat, nat) -> nat)
    requires |b.mem| == SIZE && b.esp == u && u + FRAME_SIZE <= SIZE && Words(m) && m.esp >= 4
    requires Saved(b.mem, u, m)
    requires Clear(u, m.esp) || m.esp == u + FRAME_SIZE
    ensures ReturnSequence(b, alu) ==
            Machine(m.regs, m.esp, if m.esp == u + FRAME_SIZE then m.esp - 4 else m.eip, m.eflags, Unwound(b.mem, u, m))
  {
    PlantReturnEffect(b, u, m, alu);
    UnwoundRegs(b.mem, u, m);
    UnwoundScratch(b.mem, u, m);
    PopStateEffect(PlantReturn(b, alu), u, m, alu);
  }

  // ----- kern/trap.c: where the frame goes -----

  /** UXSTACKTOP and PGSIZE. The page below the exception stack page is not mapped. */
  datatype Layout = Layout(top: nat, page: nat)

  predicate LayoutOk(lay: Layout) {
    FRAME_SIZE + 4 <= lay.page && lay.page + 4 <= lay.top < SIZE
  }

  predicate OnExceptionStack(lay: Layout, esp: nat) {
    lay.top - lay.page <= esp < lay.top
  }

  /** page_fault_handler: the new frame's address; None when it does not fit
      the exception stack page and the environment is destroyed. */
  function FrameBase(lay: Layout, esp: nat): (r: Option<nat>)
    requires LayoutOk(lay)
    ensures r.Some? ==> lay.top - lay.page <= r.value && r.value + FRAME_SIZE <= lay.top
    ensures r.Some? && OnExceptionStack(lay, esp) ==> r.value + FRAME_SIZE + 4 == esp
    ensures r.Some? && !OnExceptionStack(lay, esp) ==> r.value + FRAME_SIZE == lay.top
  {
    if OnExceptionStack(lay, esp) then
      if lay.top - lay.page <= esp - 4 - FRAME_SIZE then Some(esp - 4 - FRAME_SIZE) else None
    else Some(lay.top - FRAME_SIZE)
  }

  /** A user page fault: its address and error code, the saved esp that pushal
      leaves, and what the C handler then does. */
  datatype Fault = Fault(va: nat, err: nat, oesp: nat, body: Body)

  /** The handler computes, to any machine state that leaves its own frame and
      everything above it alone, or takes another page fault, and goes on. */
  datatype Body = Done | Compute(to: Machine, rest: Body) | Nested(fault: Fault, rest: Body)

  predicate SameFrom(lay: Layout, a: nat, mem: Mem, mem': Mem)
    requires lay.top <= |mem| == |mem'|
  {
    forall x :: a <= x < lay.top ==> mem'[x] == mem[x]
  }

  predicate Disciplined(lay: Layout, u: nat, m: Machine, to: Machine)
    requires LayoutOk(lay) && |m.mem| == SIZE
  {
    Words(to) && lay.top - lay.page <= to.esp <= u && SameFrom(lay, u, m.mem, to.mem)
  }

  function Push(m: Machine, u: nat, f: Fault, upcall: nat): Machine
    requires u + FRAME_SIZE <= |m.mem|
  {
    m.(mem := PutWords(m.mem, u, FrameWords(m, f.va, f.err, f.oesp)), esp := u, eip := upcall)
  }

  /** The handler's actions, from its frame at u; None if the environment is
      destroyed or the handler breaks the discipline. */
  function RunBody(lay: Layout, upcall: nat, alu: (nat, nat) -> nat, u: nat, m: Machine, body: Body): (r: Option<Machine>)
    requires LayoutOk(lay)
    decreases body
  {
    match body
    case Done => Some(m)
    case Compute(to, rest) =>
      if |m.mem| == SIZE && Disciplined(lay, u, m, to) then RunBody(lay, upcall, alu, u, to, rest) else None
    case Nested(f, rest) =>
      var r := Handle(lay, upcall, alu, m, f);
      if r.None? then None else RunBody(lay, upcall, alu, u, r.value, rest)
  }

  /** A fault at m: kernel push, handler, and _pgfault_upcall's return. */
  function Handle(lay: Layout, upcall: nat, alu: (nat, nat) -> nat, m: Machine, f: Fault): (r: Option<Machine>)
    requires LayoutOk(lay)
    decreases f
  {
    var u := FrameBase(lay, m.esp);
    if !Words(m) || u.None? then None
    else
      var b := RunBody(lay, upcall, alu, u.value, Push(m, u.value, f, upcall), f.body);
      if b.Some? && b.value.esp == u.value then Some(ReturnSequence(b.value, alu)) else None
  }

  // ----- what survives a fault -----

  lemma PushSaves(lay: Layout, m: Machine, u: nat, f: Fault, upcall: nat)
    requires LayoutOk(lay) && Words(m) && u + FRAME_SIZE <= lay.top
    ensures Saved(Push(m, u, f, upcall).mem, u, m)
  {
    var ws := FrameWords(m, f.va, f.err, f.oesp);
    GetPutWords(m.mem, u, ws, 2);
    GetPutWords(m.mem, u, ws, 3);
    GetPutWords(m.mem, u, ws, 4);
    GetPutWords(m.mem, u, ws, 6);
    GetPutWords(m.mem, u, ws, 7);
    GetPutWords(m.mem, u, ws, 8);
    GetPutWords(m.mem, u, ws, 9);
    GetPutWords(m.mem, u, ws, 10);
    GetPutWords(m.mem, u, ws, 11);
    GetPutWords(m.mem, u, ws, 12);
  }

  lemma PushKeeps(lay: Layout, m: Machine, u: nat, f: Fault, upcall: nat)
    requires LayoutOk(lay) && Words(m) && u + FRAME_SIZE <= lay.top
    ensures SameFrom(lay, u + FRAME_SIZE, m.mem, Push(m, u, f, upcall).mem)
  {
    forall x | u + FRAME_SIZE <= x < lay.top ensures Push(m, u, f, upcall).mem[x] == m.mem[x] {
      PutWordsFrame(m.mem, u, FrameWords(m, f.va, f.err, f.oesp), x);
    }
  }

  /** A frame whose bytes are untouched still holds the state. */
  lemma SavedSame(lay: Layout, mem: Mem, mem': Mem, u: nat, m: Machine)
    requires LayoutOk(lay) && |mem| == |mem'| == SIZE && u + FRAME_SIZE <= lay.top
    requires Saved(mem, u, m) && SameFrom(lay, u, mem, mem')
    ensures Saved(mem', u, m)
  {
    GetBytesSame(mem, mem', u + 8, u + 12);
    GetBytesSame(mem, mem', u + 12, u + 16);
    GetBytesSame(mem, mem', u + 16, u + 20);
    GetBytesSame(mem, mem', u + 24, u + 28);
    GetBytesSame(mem, mem', u + 28, u + 32);
    GetBytesSame(mem, mem', u + 32, u + 36);
    GetBytesSame(mem, mem', u + 36, u + 40);
    GetBytesSame(mem, mem', u + 40, u + 44);
    GetBytesSame(mem, mem', u + 44, u + 48);
    GetBytesSame(mem, mem', u + 48, u + 52);
  }

  /** Unwinding writes two words: below the trap-time stack pointer, and in the frame. */
  lemma UnwoundKeeps(mem: Mem, u: nat, m: Machine, x: nat)
    requires 4 <= m.esp <= |mem| && u + FRAME_SIZE <= |mem| && x < |mem|
    requires (x < m.esp - 4 || m.esp <= x) && (x < u + 48 || u + FRAME_SIZE <= x)
    ensures Unwound(mem, u, m)[x] == mem[x]
  {
    PutFrame(mem, m.esp - 4, m.eip, x);
    PutFrame(Put(mem, m.esp - 4, m.eip), u + 48, m.esp - 4, x);
  }

  predicate SameState(m: Machine, m': Machine) {
    m'.regs == m.regs && m'.esp == m.esp && m'.eip == m.eip && m'.eflags == m.eflags
  }

  /** From the handler's end state b: its frame is intact, so the return sequence applies. */
  lemma Unwinds(lay: Layout, upcall: nat, alu: (nat, nat) -> nat, m: Machine, f: Fault, u: nat, b: Machine)
    requires LayoutOk(lay) && Words(m) && upcall < SIZE && u + FRAME_SIZE <= lay.top && m.esp >= 4
    requires Words(b) && b.esp == u && SameFrom(lay, u, Push(m, u, f, upcall).mem, b.mem)
    requires Clear(u, m.esp) || m.esp == u + FRAME_SIZE
    ensures ReturnSequence(b, alu) ==
            Machine(m.regs, m.esp, if m.esp == u + FRAME_SIZE then m.esp - 4 else m.eip, m.eflags, Unwound(b.mem, u, m))
  {
    PushSaves(lay, m, u, f, upcall);
    SavedSame(lay, Push(m, u, f, upcall).mem, b.mem, u, m);
    ReturnRestores(b, u, m, alu);
  }

  /** Above the trap-time stack pointer of a nested fault nothing has changed. */
  lemma NothingAbove(lay: Layout, upcall: nat, m: Machine, f: Fault, u: nat, b: Machine)
    requires LayoutOk(lay) && Words(m) && m.esp == u + FRAME_SIZE + 4 && m.esp < lay.top
    requires Words(b) && SameFrom(lay, u, Push(m, u, f, upcall).mem, b.mem)
    ensures SameFrom(lay, m.esp, m.mem, Unwound(b.mem, u, m))
  {
    PushKeeps(lay, m, u, f, upcall);
    forall x | m.esp <= x < lay.top ensures Unwound(b.mem, u, m)[x] == m.mem[x] {
      UnwoundKeeps(b.mem, u, m, x);
    }
  }

  /** A handler, nested faults and all, leaves its frame and everything above it as they were. */
  lemma {:induction false} BodyKeeps(lay: Layout, upcall: nat, alu: (nat, nat) -> nat, u: nat, m: Machine, body: Body)
    requires LayoutOk(lay) && Words(m) && upcall < SIZE && lay.top - lay.page <= m.esp <= u < lay.top
    ensures var r := RunBody(lay, upcall, alu, u, m, body);
      r.Some? ==> Words(r.value) && SameFrom(lay, u, m.mem, r.value.mem)
    decreases body
  {
    match body
    case Done =>
    case Compute(to, rest) =>
      if Disciplined(lay, u, m, to) {
        BodyKeeps(lay, upcall, alu, u, to, rest);
      }
    case Nested(f, rest) =>
      NestedFaultRestores(lay, upcall, alu, m, f);
      var r := Handle(lay, upcall, alu, m, f);
      if r.Some? {
        BodyKeeps(lay, upcall, alu, u, r.value, rest);
      }
  }

  /** A fault taken on the exception stack, at any depth: if it is survived, all
      registers, eflags, eip and esp come back, and no byte at or above the
      trap-time stack pointer, so no live outer frame, has changed. */
  lemma {:induction false} NestedFaultRestores(lay: Layout, upcall: nat, alu: (nat, nat) -> nat, m: Machine, f: Fault)
    requires LayoutOk(lay) && Words(m) && upcall < SIZE && OnExceptionStack(lay, m.esp)
    ensures var r := Handle(lay, upcall, alu, m, f);
      r.Some? ==> Words(r.value) && SameState(m, r.value) && SameFrom(lay, m.esp, m.mem, r.value.mem)
    decreases f
  {
    if Handle(lay, upcall, alu, m, f).Some? {
      var u := FrameBase(lay, m.esp).value;
      var p := Push(m, u, f, upcall);
      var b := RunBody(lay, upcall, alu, u, p, f.body).value;
      BodyKeeps(lay, upcall, alu, u, p, f.body);
      Unwinds(lay, upcall, alu, m, f, u, b);
      NothingAbove(lay, upcall, m, f, u, b);
    }
  }

  /** What the handler is told: it starts at the upcall, its stack pointer at the frame, whose first
      two words are the fault address and the error code; _pgfault_upcall's pushl passes it the
      frame's address; and both words still read so at every later point of the handler,
      however many faults it has taken since. */
  lemma HandlerSees(lay: Layout, upcall: nat, alu: (nat, nat) -> nat, m: Machine, u: nat, f: Fault, sofar: Body)
    requires LayoutOk(lay) && Words(m) && upcall < SIZE && f.va < SIZE && f.err < SIZE
    requires lay.top - lay.page <= u && u + FRAME_SIZE <= lay.top
    ensures var p := Push(m, u, f, upcall);
      && p.eip == upcall && p.esp == u && p.regs == m.regs
      && Get(p.mem, u) == f.va && Get(p.mem, u + 4) == f.err && (f.oesp < SIZE ==> Get(p.mem, u + 20) == f.oesp)
      && var r := RunBody(lay, upcall, alu, u, p, sofar);
         r.Some? ==> Words(r.value) && Get(r.value.mem, u) == f.va && Get(r.value.mem, u + 4) == f.err
    ensures var h := Exec(Push(m, u, f, upcall), Pushl(ESP), alu);
      h.esp == u - 4 && Load(h, h.esp) == u
  {
    var p, ws := Push(m, u, f, upcall), FrameWords(m, f.va, f.err, f.oesp);
    GetPutWords(m.mem, u, ws, 0);
    GetPutWords(m.mem, u, ws, 1);
    if f.oesp < SIZE {
      GetPutWords(m.mem, u, ws, 5);
    }
    GetPutSame(p.mem, u - 4, u);
    PushWords(m, u, f, upcall);
    BodyKeeps(lay, upcall, alu, u, p, sofar);
    var r := RunBody(lay, upcall, alu, u, p, sofar);
    if r.Some? {
      GetBytesSame(p.mem, r.value.mem, u, u + 4);
      GetBytesSame(p.mem, r.value.mem, u + 4, u + 8);
    }
  }

  /** The handler's end state, when the fault is survived. */
  function HandlerEnd(lay: Layout, upcall: nat, alu: (nat, nat) -> nat, m: Machine, f: Fault): Machine
    requires LayoutOk(lay) && Handle(lay, upcall, alu, m, f).Some?
  {
    var u := FrameBase(lay, m.esp).value;
    RunBody(lay, upcall, alu, u, Push(m, u, f, upcall), f.body).value
  }

  /** A fault taken on the ordinary stack, whose word below esp is writable user
      memory: if it is survived, the whole state comes back, if and only if
      esp was not exactly UXSTACKTOP (or eip happened to be the word below it).
      Off the exception stack page, the kernel and the upcall change nothing
      but that word. */
  lemma TopFaultRestoresIff(lay: Layout, upcall: nat, alu: (nat, nat) -> nat, m: Machine, f: Fault, x: nat)
    requires LayoutOk(lay) && Words(m) && upcall < SIZE && !OnExceptionStack(lay, m.esp) && 4 <= m.esp <= lay.top
    requires Handle(lay, upcall, alu, m, f).Some?
    ensures var r := Handle(lay, upcall, alu, m, f).value;
      && r.regs == m.regs && r.esp == m.esp && r.eflags == m.eflags && |r.mem| == SIZE
      && (SameState(m, r) <==> m.esp != lay.top || m.eip == lay.top - 4)
    ensures x < SIZE && !OnExceptionStack(lay, x) && !(m.esp - 4 <= x < m.esp) ==>
      && Push(m, lay.top - FRAME_SIZE, f, upcall).mem[x] == m.mem[x]
      && |HandlerEnd(lay, upcall, alu, m, f).mem| == SIZE
      && Handle(lay, upcall, alu, m, f).value.mem[x] == HandlerEnd(lay, upcall, alu, m, f).mem[x]
  {
    var u := lay.top - FRAME_SIZE;
    var p := Push(m, u, f, upcall);
    var b := HandlerEnd(lay, upcall, alu, m, f);
    BodyKeeps(lay, upcall, alu, u, p, f.body);
    Unwinds(lay, upcall, alu, m, f, u, b);
    if x < SIZE && !OnExceptionStack(lay, x) && !(m.esp - 4 <= x < m.esp) {
      PutWordsFrame(m.mem, u, FrameWords(m, f.va, f.err, f.oesp), x);
      UnwoundKeeps(b.mem, u, m, x);
    }
  }

  /** And that does happen: a fault with esp at UXSTACKTOP whose handler does nothing is
      survived, and resumes at the address of the word below instead of at eip. */
  lemma TopOfStackLosesEip(lay: Layout, upcall: nat, alu: (nat, nat) -> nat, m: Machine)
    requires LayoutOk(lay) && Words(m) && upcall < SIZE && m.esp == lay.top && m.eip != lay.top - 4
    ensures var r := Handle(lay, upcall, alu, m, Fault(0, 0, 0, Done));
      r.Some? && r.value.esp == m.esp && r.value.eip == lay.top - 4 != m.eip
  {
    var f := Fault(0, 0, 0, Done);
    var u := lay.top - FRAME_SIZE;
    var p := Push(m, u, f, upcall);
    assert RunBody(lay, upcall, alu, u, p, Done) == Some(p);
    PushWords(m, u, f, upcall);
    Unwinds(lay, upcall, alu, m, f, u, p);
  }

  // ----- how deep faults can nest -----

  /** A fault whose handler at once faults again, depth times over. */
  function Deep(depth: nat): Fault {
    Fault(0, 0, 0, if depth == 0 then Done else Nested(Deep(depth - 1), Done))
  }

  lemma PushWords(m: Machine, u: nat, f: Fault, upcall: nat)
    requires Words(m) && u + FRAME_SIZE <= SIZE && upcall < SIZE
    ensures Words(Push(m, u, f, upcall))
  {
  }

  /** One level: the fault is survived exactly when its frame fits and the next level is survived. */
  lemma DeepStep(lay: Layout, upcall: nat, alu: (nat, nat) -> nat, m: Machine, u: nat, depth: nat)
    requires LayoutOk(lay) && Words(m) && upcall < SIZE && OnExceptionStack(lay, m.esp) && FrameBase(lay, m.esp) == Some(u)
    ensures var p := Push(m, u, Deep(depth), upcall);
      && Words(p) && p.esp == u
      && (Handle(lay, upcall, alu, m, Deep(depth)).Some? <==>
            depth == 0 || Handle(lay, upcall, alu, p, Deep(depth - 1)).Some?)
  {
    var f := Deep(depth);
    var p := Push(m, u, f, upcall);
    PushWords(m, u, f, upcall);
    if depth > 0 {
      NestedFaultRestores(lay, upcall, alu, p, Deep(depth - 1));
      BodyOfDeep(lay, upcall, alu, u, p, depth);
    }
  }

  lemma BodyOfDeep(lay: Layout, upcall: nat, alu: (nat, nat) -> nat, u: nat, p: Machine, depth: nat)
    requires LayoutOk(lay) && depth > 0
    ensures RunBody(lay, upcall, alu, u, p, Deep(depth).body) == Handle(lay, upcall, alu, p, Deep(depth - 1))
  {
    var r := Handle(lay, upcall, alu, p, Deep(depth - 1));
    assert r.Some? ==> RunBody(lay, upcall, alu, u, r.value, Done) == r;
  }

  /** Faults on the exception stack nest exactly as deep as frames of 52 bytes, each with a
      scratch word above it, fit between the page's bottom and the stack pointer. */
  lemma {:induction false} NestingFitsIff(lay: Layout, upcall: nat, alu: (nat, nat) -> nat, m: Machine, depth: nat)
    requires LayoutOk(lay) && Words(m) && upcall < SIZE && OnExceptionStack(lay, m.esp)
    ensures Handle(lay, upcall, alu, m, Deep(depth)).Some? <==>
            lay.top - lay.page + (FRAME_SIZE + 4) * (depth + 1) <= m.esp
    decreases depth
  {
    var base := FrameBase(lay, m.esp);
    if base.Some? {
      DeepStep(lay, upcall, alu, m, base.value, depth);
      if depth > 0 {
        NestingFitsIff(lay, upcall, alu, Push(m, base.value, Deep(depth), upcall), depth - 1);
      }
    }
  }
}
