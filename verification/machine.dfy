/** The abstract RISC-V hart state that the MAC_R instruction reads and writes:
    a file of 64-bit unsigned integer registers and a program counter, together
    with the wrapping unsigned arithmetic of C++ `uint64_t`. */
module Machine {

  /** Width of an integer register in bits. */
  const XLen: nat := 64

  /** Every integer register value lies in [0, Modulus); arithmetic wraps at it. */
  const Modulus: int := 0x1_0000_0000_0000_0000

  /** Number of architectural integer registers (a register field is 5 bits wide). */
  const NumRegs: nat := 32

  /** Length in bytes of a (non-compressed) 32-bit RISC-V instruction. */
  const InstBytes: nat := 4

  /** The value of one integer register: an unsigned 64-bit integer. */
  type Word = x: int | 0 <= x < Modulus

  /** The number of an integer register, as held in an rs1/rs2/rd field. */
  type RegIndex = r: int | 0 <= r < NumRegs

  /** The integer register file: exactly one word per register number. */
  type RegFile = s: seq<Word> | |s| == NumRegs witness seq(NumRegs, _ => 0)

  /** A code address: an unsigned 64-bit integer, like a register value. */
  type Addr = Word

  /** The hart state seen through the execution context. */
  datatype Hart = Hart(regs: RegFile, pc: Addr)

  /** The fault an instruction's execution reports; `NoFault` is success. */
  datatype Fault = NoFault | Raised(name: string)

  /** The modulus really is 2 to the power of the register width. */
  function Pow2(n: nat): (p: nat)
    ensures p >= 1
  {
    if n == 0 then 1 else 2 * Pow2(n - 1)
  }

  lemma {:induction false} Pow2Add(a: nat, b: nat)
    ensures Pow2(a + b) == Pow2(a) * Pow2(b)
    decreases a
  {
    if a > 0 {
      Pow2Add(a - 1, b);
    }
  }

  lemma ModulusIsPow2XLen()
    ensures Modulus == Pow2(XLen)
  {
    assert Pow2(1) == 2;
    assert Pow2(2) == 4 by { Pow2Add(1, 1); }
    assert Pow2(4) == 16 by { Pow2Add(2, 2); }
    assert Pow2(8) == 0x100 by { Pow2Add(4, 4); }
    assert Pow2(16) == 0x1_0000 by { Pow2Add(8, 8); }
    assert Pow2(32) == 0x1_0000_0000 by { Pow2Add(16, 16); }
    assert Pow2(64) == 0x1_0000_0000_0000_0000 by { Pow2Add(32, 32); }
  }

  /** Unsigned 64-bit addition (`uint64_t + uint64_t`): the carry out of bit 63 is dropped. */
  function Add(a: Word, b: Word): (r: Word)
    ensures a + b < Modulus ==> r == a + b
    ensures a + b >= Modulus ==> r == a + b - Modulus
  {
    (a + b) % Modulus
  }

  /** Unsigned 64-bit multiplication (`uint64_t * uint64_t`): the low 64 bits of the product. */
  function Mul(a: Word, b: Word): (r: Word)
    ensures (a * b - r) % Modulus == 0
  {
    var p := a * b;
    ModSubMultiple(p);
    p % Modulus
  }

  /** `x - x % Modulus` is a multiple of the modulus. */
  lemma ModSubMultiple(x: int)
    ensures (x - x % Modulus) % Modulus == 0
  {
  }

  /** Reducing one summand first gives the same residue as reducing the sum. */
  lemma ModAddRight(a: int, b: int)
    ensures (a + b % Modulus) % Modulus == (a + b) % Modulus
  {
  }

  /** Reading an integer register (`readIntReg`) has no effect on the hart. */
  function ReadIntReg(h: Hart, r: RegIndex): Word
  {
    h.regs[r]
  }

  /** A read after a write sees the written value in the written register and
      the old value in every other register. */
  lemma ReadOverWrite(h: Hart, r: RegIndex, v: Word, s: RegIndex)
    ensures ReadIntReg(SetIntReg(h, r, v), s) == if s == r then v else ReadIntReg(h, s)
  {
  }

  /** Writing an integer register (`setIntReg`): that register alone changes. */
  function SetIntReg(h: Hart, r: RegIndex, v: Word): (h': Hart)
    ensures ReadIntReg(h', r) == v
    ensures forall k: RegIndex :: k != r ==> h'.regs[k] == h.regs[k]
    ensures h'.pc == h.pc
  {
    h.(regs := h.regs[r := v])
  }

  /** The address of the instruction that sequentially follows the current one:
      the PC plus one instruction length, wrapping at 2^64 like any `Addr`. */
  function NextInstAddr(h: Hart): (a: Addr)
    ensures h.pc + InstBytes < Modulus ==> a == h.pc + InstBytes
    ensures h.pc + InstBytes >= Modulus ==> a == h.pc + InstBytes - Modulus
  {
    (h.pc + InstBytes) % Modulus
  }

  /** Redirecting the PC: the register file is untouched. */
  function SetPC(h: Hart, a: Addr): (h': Hart)
    ensures h'.pc == a && h'.regs == h.regs
  {
    h.(pc := a)
  }
}
