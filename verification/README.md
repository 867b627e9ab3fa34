# MAC_R: a verified model of a custom RISC-V multiply-accumulate instruction

This repository adds one instruction to gem5's RISC-V ISA: `mac rd, rs1, rs2`, class
`MAC_R`. It computes `rd := rd + rs1 * rs2` in 64-bit unsigned arithmetic. The Dafny project
models the three things the instruction class does:

- **Decoding.** The constructor copies the `rs1`, `rs2` and `rd` fields of the machine
  instruction into the operand slots `src1`, `src2` and `dest`.
- **Disassembly.** `generateDisassembly` produces `mac <dest>, <src1>, <src2>`, using the
  register-name table.
- **Execution.** `execute` is one step over the hart state. It reads both sources and the old
  destination, writes the wrapped sum back to the destination and moves the PC to the next
  instruction. It reports `NoFault`.

Files:

- `machine.dfy` (module `Machine`): the hart state and its primitives. It has 32 integer
  registers of 64 bits and a PC. The primitives are `ReadIntReg`, `SetIntReg`, `NextInstAddr`
  and `SetPC`. It also holds the `uint64_t` addition and multiplication, which wrap at 2^64.
- `text.dfy` (module `Text`): splitting a string at a separator and joining it back. These are
  used to read a disassembly text back into its operands.
- `mac.dfy` (module `Mac`): the instruction itself, with its properties.

Register values are integers in [0, 2^64). The model writes every wrap-around out explicitly as
`% Modulus`, and `Machine.ModulusIsPow2XLen` proves that `Modulus` is 2^64. `Machine.Add` and
`Machine.Mul` wrap each C++ operation separately, as the source does. The contract of
`Mac.Execute` states the result with a single reduction of the exact sum. A congruence lemma
connects the two forms.

These members are partners that exist only in the model:

- `Mac.Parse` reads a disassembly text back into an instruction. It is the inverse that the
  round-trip lemmas for the disassembly are stated against.
- `Mac.MacStep` is the before/after relation of one step. `Mac.ExecuteIsMacStep` shows that
  `Execute` satisfies it and that nothing else does.
- `Mac.Repeat` and `Mac.ExecuteTimes` model `k` back-to-back copies of the instruction.
  `Mac.AccumulateTimes` is the reference for what they leave in the destination: the old value
  with `Accumulated` applied `k` times.

## Model

| member | source | states |
|---|---|---|
| Mac.Decode | src/arch/riscv/insts/mac.cc:11-18 | the constructor puts `rs1` into `src1`, `rs2` into `src2` and `rd` into `dest`, unchanged |
| Mac.DecodeRoundTrip | src/arch/riscv/insts/mac.cc:15-17 | decoding is a bijection between operand fields and instructions: the fields can be recovered, and two decodes are equal only when their fields are |
| Mac.Disassemble | src/arch/riscv/insts/mac.cc:20-25 | the text begins with the mnemonic `mac` and a space |
| Mac.ParseDisassemble | src/arch/riscv/insts/mac.cc:23-24 | when names are comma-free and distinct, the text lists the destination first and then `src1` and `src2` in that order, separated by ", ", so reading it back gives exactly the instruction |
| Mac.DisassembleParse | src/arch/riscv/insts/mac.cc:23-24 | any text that reads back as an instruction is exactly that instruction's disassembly, so the format has no other spellings |
| Mac.DisassembleInjective | src/arch/riscv/insts/mac.cc:23-24 | when names are comma-free and distinct, two instructions have the same disassembly if and only if they are equal |
| Mac.Execute | src/arch/riscv/insts/mac.cc:27-44 | always reports `NoFault`; `dest` receives old `dest` + old `src1` × old `src2` modulo 2^64; every other register keeps its value; the PC advances by one 4-byte instruction, modulo 2^64 |
| Mac.ExecuteIsMacStep | src/arch/riscv/insts/mac.cc:31-42 | `Execute` establishes the MAC step relation, and any hart in that relation to the start equals `Execute`'s result, so the contract fixes the whole next state |
| Mac.AliasedOperandsReadOldValues | src/arch/riscv/insts/mac.cc:31-36 | when `dest` is also `src1`, `src2` or both, the product uses that register's value from before the instruction, because all reads precede the single write |
| Mac.SwapSourcesSameOutcome | src/arch/riscv/insts/mac.cc:36 | exchanging `src1` and `src2` gives the same next state and fault |
| Mac.RepeatKeeps | src/arch/riscv/insts/mac.cc:39 | a register other than `dest` holds the same value after `k` executions as before them |
| Mac.RepeatFrame | src/arch/riscv/insts/mac.cc:39 | after `k` executions, the register file is the old one with only `dest` replaced: every other register is unchanged |
| Mac.RepeatPC | src/arch/riscv/insts/mac.cc:42 | after `k` executions, the PC has moved on by `k` 4-byte instructions, modulo 2^64 |
| Mac.RepeatSums | src/arch/riscv/insts/mac.cc:31-39 | with `dest` distinct from both sources, `k` executions leave in `dest` exactly the `k`-fold accumulation `AccumulateTimes` of the unchanged source values |
| Mac.RepeatAccumulates | src/arch/riscv/insts/mac.cc:31-39 | after `k` executions with `dest` distinct from both sources, `dest` = old `dest` + k · (`src1` · `src2`) modulo 2^64 |
| Mac.ExecuteTimes | src/arch/riscv/insts/mac.cc:27-44 | a loop running the instruction `k` times reaches the same hart as `k` steps. It leaves non-destination registers alone, advances the PC by `k` instructions modulo 2^64 and, without aliasing, accumulates `k` products |
| Machine.Add | src/arch/riscv/insts/mac.cc:36 | the 64-bit unsigned sum equals the exact sum when that is below 2^64, and the exact sum minus 2^64 otherwise |
| Machine.Mul | src/arch/riscv/insts/mac.cc:36 | the 64-bit unsigned product is the word congruent to the exact product modulo 2^64 |
| Machine.ModulusIsPow2XLen | src/arch/riscv/insts/mac.cc:31-36 | the modulus at which register arithmetic wraps is 2 to the power of the 64-bit register width |
| Machine.SetIntReg | src/arch/riscv/insts/mac.cc:39 | writing a register sets that register to the value and leaves all other registers and the PC unchanged |
| Machine.SetPC | src/arch/riscv/insts/mac.cc:42 | redirecting the PC sets the PC and leaves the register file unchanged |
| Machine.NextInstAddr | src/arch/riscv/insts/mac.cc:42 | the next instruction address is the PC plus 4 when that is below 2^64, and the PC plus 4 minus 2^64 otherwise, as for any 64-bit address |
| Machine.ReadOverWrite | src/arch/riscv/insts/mac.cc:31-39 | reading a register after `setIntReg` gives the written value for the written register and the old value for every other one |

## Left out

- `configs/tutorial/*.py`: these scripts only choose a board, caches, memory and CPU type for
  gem5 and start the simulator. They have no behaviour of their own.
- `src/arch/riscv/insts/mac.hh`: it only declares the class. All logic is in `mac.cc`.
- Bit-level instruction encoding: the extraction of `rs1`, `rs2` and `rd` from the instruction
  word and the decoder table belong to gem5's decoder, which is not part of this model. The
  model starts from the extracted register fields (`Mac.MachInst`).
- Register-name table: gem5's `int_reg::reg_names` is not part of this model. The disassembly
  takes the table as a parameter `names`. The round-trip lemmas assume only that the names
  contain no comma and are distinct.
- The `pc` and `symtab` arguments of `generateDisassembly` are not modelled, because the text
  does not depend on them.
- Zero register: the model applies `setIntReg` as written to every register number, including
  0. Whether the CPU then discards a write to `x0` is decided by the execution context, not by
  this instruction. So for `rd` = `x0` the contracts describe the value passed to `setIntReg`,
  not the architectural value of `x0`.
- `traceData` and all other execution-context internals are not modelled. The execution
  context appears only as the hart state and the four primitives in `Machine`.
- PC state: gem5's `PCState` (its next-PC field and compressed-instruction handling) is not part
  of this model. The PC is a 64-bit address, and the next instruction address is the PC plus
  4, the length of a 32-bit encoding, wrapping at 2^64.
- Timing, pipelines (in-order timing and O3 CPUs), caches and memory are simulator concerns
  with no effect on what the instruction computes.
