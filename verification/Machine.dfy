/** A small x86 machine: byte-addressed memory, the registers, and the
    instructions that lib/pfentry.S uses. */
module Machine {

  const SIZE: nat := 0x1_0000_0000

  type Mem = seq<nat>

  /** Little-endian stores and loads of the bytes at [a, hi). */
  function PutBytes(mem: Mem, a: nat, hi: nat, v: nat): (r: Mem)
    requires a <= hi <= |mem|
    ensures |r| == |mem|
    decreases hi - a
  {
    if a == hi then mem else PutBytes(mem[a := v % 256], a + 1, hi, v / 256)
  }

  function GetBytes(mem: Mem, a: nat, hi: nat): nat
    requires a <= hi <= |mem|
    decreases hi - a
  {
    if a == hi then 0 else mem[a] + 256 * GetBytes(mem, a + 1, hi)
  }

  function Limit(n: nat): nat {
    if n == 0 then 1 else 256 * Limit(n - 1)
  }

  /** 32-bit stores and loads. */
  function Put(mem: Mem, a: nat, v: nat): (r: Mem)
    requires a + 4 <= |mem|
    ensures |r| == |mem|
  {
    PutBytes(mem, a, a + 4, v)
  }

  function Get(mem: Mem, a: nat): nat
    requires a + 4 <= |mem|
  {
    GetBytes(mem, a, a + 4)
  }

  lemma {:induction false} PutBytesFrame(mem: Mem, a: nat, hi: nat, v: nat, x: nat)
    requires a <= hi <= |mem| && x < |mem| && (x < a || hi <= x)
    ensures PutBytes(mem, a, hi, v)[x] == mem[x]
    decreases hi - a
  {
    if a < hi {
      PutBytesFrame(mem[a := v % 256], a + 1, hi, v / 256, x);
    }
  }

  lemma {:induction false} GetBytesPut(mem: Mem, a: nat, hi: nat, v: nat)
    requires a <= hi <= |mem| && v < Limit(hi - a)
    ensures GetBytes(PutBytes(mem, a, hi, v), a, hi) == v
    decreases hi - a
  {
    if a < hi {
      GetBytesPut(mem[a := v % 256], a + 1, hi, v / 256);
      PutBytesFrame(mem[a := v % 256], a + 1, hi, v / 256, a);
    }
  }

  /** Loads see only their own bytes. */
  lemma {:induction false} GetBytesSame(mem: Mem, mem': Mem, a: nat, hi: nat)
    requires a <= hi <= |mem| && |mem'| == |mem| && forall x :: a <= x < hi ==> mem'[x] == mem[x]
    ensures GetBytes(mem', a, hi) == GetBytes(mem, a, hi)
    decreases hi - a
  {
    if a < hi {
      GetBytesSame(mem, mem', a + 1, hi);
    }
  }

  lemma GetPutSame(mem: Mem, a: nat, v: nat)
    requires a + 4 <= |mem| && v < SIZE
    ensures Get(Put(mem, a, v), a) == v
  {
    assert Limit(1) == 0x100 && Limit(2) == 0x1_0000 && Limit(3) == 0x100_0000 && Limit(4) == SIZE;
    GetBytesPut(mem, a, a + 4, v);
  }

  lemma GetPutOther(mem: Mem, a: nat, v: nat, b: nat)
    requires a + 4 <= |mem| && b + 4 <= |mem| && (a + 4 <= b || b + 4 <= a)
    ensures Get(Put(mem, a, v), b) == Get(mem, b)
  {
    forall x | b <= x < b + 4 ensures Put(mem, a, v)[x] == mem[x] {
      PutBytesFrame(mem, a, a + 4, v, x);
    }
    GetBytesSame(mem, Put(mem, a, v), b, b + 4);
  }

  lemma PutFrame(mem: Mem, a: nat, v: nat, x: nat)
    requires a + 4 <= |mem| && x < |mem| && (x < a || a + 4 <= x)
    ensures Put(mem, a, v)[x] == mem[x]
  {
    PutBytesFrame(mem, a, a + 4, v, x);
  }

  datatype Reg = EAX | EBX | ECX | EDX | ESI | EDI | EBP | ESP

  /** The general registers that pushal and popal move, other than esp. */
  datatype Regs = Regs(edi: nat, esi: nat, ebp: nat, ebx: nat, edx: nat, ecx: nat, eax: nat)

  datatype Machine = Machine(regs: Regs, esp: nat, eip: nat, eflags: nat, mem: Mem)

  predicate Words(m: Machine) {
    && m.regs.edi < SIZE && m.regs.esi < SIZE && m.regs.ebp < SIZE && m.regs.ebx < SIZE
    && m.regs.edx < SIZE && m.regs.ecx < SIZE && m.regs.eax < SIZE
    && m.esp < SIZE && m.eip < SIZE && m.eflags < SIZE && |m.mem| == SIZE
  }

  function GetReg(m: Machine, r: Reg): nat {
    match r
    case EAX => m.regs.eax
    case EBX => m.regs.ebx
    case ECX => m.regs.ecx
    case EDX => m.regs.edx
    case ESI => m.regs.esi
    case EDI => m.regs.edi
    case EBP => m.regs.ebp
    case ESP => m.esp
  }

  function SetReg(m: Machine, r: Reg, v: nat): Machine {
    match r
    case EAX => m.(regs := m.regs.(eax := v))
    case EBX => m.(regs := m.regs.(ebx := v))
    case ECX => m.(regs := m.regs.(ecx := v))
    case EDX => m.(regs := m.regs.(edx := v))
    case ESI => m.(regs := m.regs.(esi := v))
    case EDI => m.(regs := m.regs.(edi := v))
    case EBP => m.(regs := m.regs.(ebp := v))
    case ESP => m.(esp := v)
  }

  /** Addresses beyond the end of memory read as 0 and ignore stores. */
  function Load(m: Machine, a: nat): nat {
    if a + 4 <= |m.mem| then Get(m.mem, a) else 0
  }

  function Store(m: Machine, a: nat, v: nat): Machine {
    if a + 4 <= |m.mem| then m.(mem := Put(m.mem, a, v)) else m
  }

  function Minus4(a: nat): nat {
    if a >= 4 then a - 4 else a + SIZE - 4
  }

  datatype Instr =
    | Pushl(r: Reg)
    | MovLoad(off: nat, base: Reg, dst: Reg)      // movl off(base), dst
    | MovReg(src: Reg, dst: Reg)                  // movl src, dst
    | MovStore(src: Reg, off: nat, base: Reg)     // movl src, off(base)
    | AddEsp(n: nat)                              // addl $n, %esp: changes eflags
    | Popal
    | Popfl
    | PopEsp                                      // popl %esp
    | Ret

  /** alu gives the flags an addition leaves behind; any function will do. */
  function Exec(m: Machine, i: Instr, alu: (nat, nat) -> nat): Machine {
    match i
    case Pushl(r) => Store(m.(esp := Minus4(m.esp)), Minus4(m.esp), GetReg(m, r))
    case MovLoad(off, base, dst) => SetReg(m, dst, Load(m, GetReg(m, base) + off))
    case MovReg(src, dst) => SetReg(m, dst, GetReg(m, src))
    case MovStore(src, off, base) => Store(m, GetReg(m, base) + off, GetReg(m, src))
    case AddEsp(n) => m.(esp := (m.esp + n) % SIZE, eflags := alu(m.esp, n))
    case Popal =>
      m.(regs := Regs(Load(m, m.esp), Load(m, m.esp + 4), Load(m, m.esp + 8), Load(m, m.esp + 16),
                      Load(m, m.esp + 20), Load(m, m.esp + 24), Load(m, m.esp + 28)),
         esp := (m.esp + 32) % SIZE)
    case Popfl => m.(eflags := Load(m, m.esp), esp := (m.esp + 4) % SIZE)
    case PopEsp => m.(esp := Load(m, m.esp))
    case Ret => m.(eip := Load(m, m.esp), esp := (m.esp + 4) % SIZE)
  }
}
