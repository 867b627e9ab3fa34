/** The custom RISC-V multiply-accumulate instruction `mac rd, rs1, rs2`
    (class MAC_R): its operand capture at decode time, its disassembly text,
    and its execution as one step over the hart state. */
module Mac {
  import opened Machine
  import opened Text

  /** The mnemonic the instruction is constructed with. */
  const Mnemonic: string := "mac"

  /** The register fields of the machine instruction, as the decoder has
      already extracted them; the bit-level layout is not modelled. */
  datatype MachInst = MachInst(rd: RegIndex, rs1: RegIndex, rs2: RegIndex)

  /** A decoded MAC_R instruction: its two source and one destination registers. */
  datatype MacR = MacR(src1: RegIndex, src2: RegIndex, dest: RegIndex)

  /** What `execute` leaves behind: the new hart state and the fault it reports. */
  datatype Outcome = Outcome(hart: Hart, fault: Fault)

  // ---------------------------------------------------------------------------
  // Decoding
  // ---------------------------------------------------------------------------

  /** The constructor: each operand field is copied into its operand slot. */
  function Decode(m: MachInst): (i: MacR)
    ensures i.src1 == m.rs1 && i.src2 == m.rs2 && i.dest == m.rd
  {
    MacR(m.rs1, m.rs2, m.rd)
  }

  /** The operand fields an instruction was decoded from. */
  function Fields(i: MacR): MachInst
  {
    MachInst(i.dest, i.src1, i.src2)
  }

  /** Decoding loses nothing and invents nothing: it is a bijection onto
      instructions, with `Fields` as its inverse on both sides. */
  lemma DecodeRoundTrip(m: MachInst, i: MacR)
    ensures Fields(Decode(m)) == m
    ensures Decode(Fields(i)) == i
    ensures Decode(m) == i <==> m == Fields(i)
  {
  }

  // ---------------------------------------------------------------------------
  // Disassembly
  // ---------------------------------------------------------------------------

  /** `generateDisassembly`: the mnemonic, a space, then the destination and the
      two sources by name, separated by ", ". The PC and symbol table the source
      receives play no part in the text. */
  function Disassemble(i: MacR, names: RegIndex -> string): (t: string)
    ensures |t| > |Mnemonic| + 1 && t[..|Mnemonic| + 1] == Mnemonic + " "
  {
    Mnemonic + " " + names(i.dest) + ", " + names(i.src1) + ", " + names(i.src2)
  }

  /** The register names can be told apart: none contains a comma and no two are equal. */
  predicate Readable(names: RegIndex -> string)
  {
    && (forall r: RegIndex :: ',' !in names(r))
    && (forall r: RegIndex, s: RegIndex :: names(r) == names(s) ==> r == s)
  }

  /** The register a name belongs to, searching from register `from` upwards. */
  function Lookup(names: RegIndex -> string, s: string, from: nat): (r: Option<RegIndex>)
    requires from <= NumRegs
    ensures r.Some? ==> from <= r.value && names(r.value) == s
    ensures r.None? ==> forall k: RegIndex :: from <= k ==> names(k) != s
    decreases NumRegs - from
  {
    if from == NumRegs then None
    else if names(from) == s then Some(from)
    else Lookup(names, s, from + 1)
  }

  /** A piece following a ", " separator once split at the comma: a space, then the name. */
  predicate LeadingSpace(s: string)
  {
    |s| > 0 && s[0] == ' '
  }

  /** Reads a disassembly text back into the instruction it describes, if any. */
  function Parse(t: string, names: RegIndex -> string): Option<MacR>
  {
    var prefix := Mnemonic + " ";
    if |t| < |prefix| || t[..|prefix|] != prefix then None
    else
      var parts := Split(t[|prefix|..], ',');
      if |parts| != 3 || !LeadingSpace(parts[1]) || !LeadingSpace(parts[2]) then None
      else
        match (Lookup(names, parts[0], 0), Lookup(names, parts[1][1..], 0), Lookup(names, parts[2][1..], 0))
        case (Some(d), Some(a), Some(b)) => Some(MacR(a, b, d))
        case _ => None
  }

  /** The operand list of the text is the three names joined at commas. */
  lemma DisassembleAsJoin(i: MacR, names: RegIndex -> string)
    ensures Disassemble(i, names)
         == Mnemonic + " " + Join([names(i.dest), " " + names(i.src1), " " + names(i.src2)], ',')
  {
    JoinThree(names(i.dest), " " + names(i.src1), " " + names(i.src2), ',');
  }

  /** With readable names, the text names the destination first and then the
      sources in order: reading it back recovers exactly the instruction. */
  lemma ParseDisassemble(i: MacR, names: RegIndex -> string)
    requires Readable(names)
    ensures Parse(Disassemble(i, names), names) == Some(i)
  {
    var t := Disassemble(i, names);
    var parts := [names(i.dest), " " + names(i.src1), " " + names(i.src2)];
    DisassembleAsJoin(i, names);
    assert t[|Mnemonic + " "|..] == Join(parts, ',');
    assert ',' !in " " + names(i.src1) && ',' !in " " + names(i.src2);
    SplitJoin(parts, ',');
    assert parts[1][1..] == names(i.src1);
    assert parts[2][1..] == names(i.src2);
  }

  /** Every text that reads back as an instruction is that instruction's disassembly. */
  lemma DisassembleParse(t: string, i: MacR, names: RegIndex -> string)
    requires Parse(t, names) == Some(i)
    ensures t == Disassemble(i, names)
  {
    var prefix := Mnemonic + " ";
    assert |t| >= |prefix| && t[..|prefix|] == prefix;
    var rest := t[|prefix|..];
    var parts := Split(rest, ',');
    assert |parts| == 3 && LeadingSpace(parts[1]) && LeadingSpace(parts[2]);
    var n0, n1, n2 := parts[0], parts[1][1..], parts[2][1..];
    assert Lookup(names, n0, 0) == Some(i.dest);
    assert Lookup(names, n1, 0) == Some(i.src1);
    assert Lookup(names, n2, 0) == Some(i.src2);
    OperandPieces(parts);
    assert [names(i.dest), " " + names(i.src1), " " + names(i.src2)] == parts;
    JoinSplit(rest, ',');
    DisassembleAsJoin(i, names);
    assert t == prefix + rest;
  }

  /** Three pieces of which the last two start with a space are the first piece
      and the other two with that space put back in front of their remainders. */
  lemma OperandPieces(parts: seq<string>)
    requires |parts| == 3 && LeadingSpace(parts[1]) && LeadingSpace(parts[2])
    ensures parts == [parts[0], " " + parts[1][1..], " " + parts[2][1..]]
  {
    assert parts[1] == [parts[1][0]] + parts[1][1..];
    assert parts[2] == [parts[2][0]] + parts[2][1..];
  }

  /** With readable names, distinct instructions disassemble to distinct texts. */
  lemma DisassembleInjective(i: MacR, j: MacR, names: RegIndex -> string)
    requires Readable(names)
    ensures Disassemble(i, names) == Disassemble(j, names) <==> i == j
  {
    if Disassemble(i, names) == Disassemble(j, names) {
      ParseDisassemble(i, names);
      ParseDisassemble(j, names);
    }
  }

  // ---------------------------------------------------------------------------
  // Execution
  // ---------------------------------------------------------------------------

  /** The value the destination receives: the old destination plus the product
      of the sources, taken modulo 2^64. */
  function Accumulated(d: Word, s1: Word, s2: Word): Word
  {
    (d + s1 * s2) % Modulus
  }

  /** `execute`: read both sources and the old destination, then write
      old destination + src1 * src2 in uint64_t arithmetic to the destination,
      step the PC to the next instruction, and report no fault. */
  function Execute(i: MacR, h: Hart): (o: Outcome)
    ensures o.fault == NoFault
    ensures o.hart.regs[i.dest] == Accumulated(h.regs[i.dest], h.regs[i.src1], h.regs[i.src2])
    ensures forall k: RegIndex :: k != i.dest ==> o.hart.regs[k] == h.regs[k]
    ensures o.hart.pc == (h.pc + InstBytes) % Modulus
  {
    var valS1 := ReadIntReg(h, i.src1);
    var valS2 := ReadIntReg(h, i.src2);
    var valDOld := ReadIntReg(h, i.dest);
    var product := Mul(valS1, valS2);
    var result := Add(valDOld, product);
    ModAddRight(valDOld, valS1 * valS2);
    var h1 := SetIntReg(h, i.dest, result);
    var h2 := SetPC(h1, NextInstAddr(h1));
    Outcome(h2, NoFault)
  }

  /** The relation one MAC step establishes between a hart before and after it. */
  ghost predicate MacStep(i: MacR, h: Hart, h': Hart)
  {
    && h'.regs[i.dest] == Accumulated(h.regs[i.dest], h.regs[i.src1], h.regs[i.src2])
    && (forall k: RegIndex :: k != i.dest ==> h'.regs[k] == h.regs[k])
    && h'.pc == (h.pc + InstBytes) % Modulus
  }

  /** `Execute` performs a MAC step, and a MAC step leaves no freedom: any hart
      it relates to the start is exactly the one `Execute` produces. */
  lemma ExecuteIsMacStep(i: MacR, h: Hart, h': Hart)
    ensures MacStep(i, h, Execute(i, h).hart)
    ensures MacStep(i, h, h') <==> h' == Execute(i, h).hart
  {
  }

  /** All three operands are read before the single write, so a destination that
      is also a source contributes its value from before the instruction. */
  lemma AliasedOperandsReadOldValues(i: MacR, h: Hart)
    ensures i.dest == i.src1 ==>
      Execute(i, h).hart.regs[i.dest] == (h.regs[i.dest] + h.regs[i.dest] * h.regs[i.src2]) % Modulus
    ensures i.dest == i.src2 ==>
      Execute(i, h).hart.regs[i.dest] == (h.regs[i.dest] + h.regs[i.src1] * h.regs[i.dest]) % Modulus
    ensures i.dest == i.src1 == i.src2 ==>
      Execute(i, h).hart.regs[i.dest] == (h.regs[i.dest] + h.regs[i.dest] * h.regs[i.dest]) % Modulus
  {
  }

  /** Exchanging the two sources changes nothing: the accumulated term is a product. */
  lemma SwapSourcesSameOutcome(i: MacR, h: Hart)
    ensures Execute(MacR(i.src2, i.src1, i.dest), h) == Execute(i, h)
  {
  }

  /** The hart after `k` back-to-back executions of the same instruction. */
  function Repeat(i: MacR, h: Hart, k: nat): Hart
  {
    if k == 0 then h else Execute(i, Repeat(i, h, k - 1)).hart
  }

  /** `x` with `p` added `k` times, wrapping at 2^64 after every addition: how
      both the destination register and the PC evolve over repeated executions. */
  function WrapAddTimes(x: Word, p: int, k: nat): Word
  {
    if k == 0 then x else (WrapAddTimes(x, p, k - 1) + p) % Modulus
  }

  /** Adding `p` to a reduced sum and reducing again is reducing the whole sum. */
  lemma ModChain(y: int, x: int, p: int, e: int)
    requires x == e % Modulus
    requires y == (x + p) % Modulus
    ensures y == (e + p) % Modulus
  {
    ModAddRight(p, e);
  }

  /** A word is its own residue. */
  lemma WordMod(x: Word)
    ensures x % Modulus == x
  {
  }

  /** Wrapping after every addition is wrapping once after all of them. */
  lemma {:induction false} WrapAddTimesOnce(x: Word, p: int, k: nat)
    ensures WrapAddTimes(x, p, k) == (x + k * p) % Modulus
  {
    if k > 0 {
      WrapAddTimesOnce(x, p, k - 1);
      ModChain(WrapAddTimes(x, p, k), WrapAddTimes(x, p, k - 1), p, x + (k - 1) * p);
      assert x + (k - 1) * p + p == x + k * p;
    } else {
      WordMod(x);
    }
  }

  /** The destination after `k` accumulations of the same two source values. */
  function AccumulateTimes(d: Word, s1: Word, s2: Word, k: nat): Word
  {
    if k == 0 then d else Accumulated(AccumulateTimes(d, s1, s2, k - 1), s1, s2)
  }

  /** Accumulating `k` times adds the product `k` times, wrapping as it goes. */
  lemma {:induction false} AccumulateTimesAdds(d: Word, s1: Word, s2: Word, k: nat)
    ensures AccumulateTimes(d, s1, s2, k) == WrapAddTimes(d, s1 as int * s2, k)
  {
    if k > 0 {
      AccumulateTimesAdds(d, s1, s2, k - 1);
    }
  }

  /** A register other than the destination keeps its value through `k` executions. */
  lemma {:induction false} RepeatKeeps(i: MacR, h: Hart, k: nat, r: RegIndex)
    requires r != i.dest
    ensures Repeat(i, h, k).regs[r] == h.regs[r]
  {
    if k > 0 {
      RepeatKeeps(i, h, k - 1, r);
    }
  }

  /** Each execution moves the PC on by one instruction, wrapping at 2^64. */
  lemma {:induction false} RepeatAdvances(i: MacR, h: Hart, k: nat)
    ensures Repeat(i, h, k).pc == WrapAddTimes(h.pc, InstBytes, k)
  {
    if k > 0 {
      RepeatAdvances(i, h, k - 1);
    }
  }

  /** Without aliasing, each execution adds the same product into the destination. */
  lemma {:induction false} RepeatSums(i: MacR, h: Hart, k: nat)
    requires i.dest != i.src1 && i.dest != i.src2
    ensures Repeat(i, h, k).regs[i.dest]
         == AccumulateTimes(h.regs[i.dest], h.regs[i.src1], h.regs[i.src2], k)
  {
    if k > 0 {
      RepeatSums(i, h, k - 1);
      RepeatKeeps(i, h, k - 1, i.src1);
      RepeatKeeps(i, h, k - 1, i.src2);
    }
  }

  /** Repeating an instruction changes no register but its destination: the
      register file is the old one with only the destination replaced. */
  lemma {:induction false} RepeatFrame(i: MacR, h: Hart, k: nat)
    ensures Repeat(i, h, k).regs == h.regs[i.dest := Repeat(i, h, k).regs[i.dest]]
  {
    forall r: RegIndex | r != i.dest
      ensures Repeat(i, h, k).regs[r] == h.regs[r]
    {
      RepeatKeeps(i, h, k, r);
    }
  }

  /** Repeating an instruction moves the PC on by `k` instructions, modulo 2^64. */
  lemma {:induction false} RepeatPC(i: MacR, h: Hart, k: nat)
    ensures Repeat(i, h, k).pc == (h.pc + k * InstBytes) % Modulus
  {
    RepeatAdvances(i, h, k);
    WrapAddTimesOnce(h.pc, InstBytes, k);
  }

  /** Repeating an instruction whose destination is neither source adds the same
      product `k` times: the destination holds old destination + k * src1 * src2
      modulo 2^64. */
  lemma RepeatAccumulates(i: MacR, h: Hart, k: nat)
    requires i.dest != i.src1 && i.dest != i.src2
    ensures Repeat(i, h, k).regs[i.dest]
         == (h.regs[i.dest] + k * (h.regs[i.src1] as int * h.regs[i.src2])) % Modulus
  {
    var p: int := h.regs[i.src1] as int * h.regs[i.src2];
    RepeatSums(i, h, k);
    AccumulateTimesAdds(h.regs[i.dest], h.regs[i.src1], h.regs[i.src2], k);
    WrapAddTimesOnce(h.regs[i.dest], p, k);
  }

  /** Runs the instruction `k` times in a row, as a loop over the hart state. */
  method ExecuteTimes(i: MacR, h: Hart, k: nat) returns (h': Hart)
    ensures h' == Repeat(i, h, k)
    ensures h'.regs == h.regs[i.dest := h'.regs[i.dest]]
    ensures h'.pc == (h.pc + k * InstBytes) % Modulus
    ensures i.dest != i.src1 && i.dest != i.src2 ==>
      h'.regs[i.dest] == (h.regs[i.dest] + k * (h.regs[i.src1] as int * h.regs[i.src2])) % Modulus
  {
    h' := h;
    var n := 0;
    while n < k
      invariant n <= k
      invariant h' == Repeat(i, h, n)
    {
      h' := Execute(i, h').hart;
      n := n + 1;
    }
    if i.dest != i.src1 && i.dest != i.src2 {
      RepeatAccumulates(i, h, k);
    }
    RepeatFrame(i, h, k);
    RepeatPC(i, h, k);
  }
}
