/** The part of the 32-bit x86 instruction set that the generated loaders use, executed one byte
    of a string instruction at a time, with the direction flag clear. */
module X86 {
  import opened Words
  import opened Memory

  const EAX := 0
  const ECX := 1
  const EDX := 2
  const EBX := 3
  const ESI := 6
  const EDI := 7

  datatype Cpu = Cpu(eip: nat, regs: seq<u32>, mem: seq<byte>) {
    predicate Valid() {
      |regs| == 8 && |mem| == SIZE && eip < SIZE
    }
  }

  /** An address register after n bytes. */
  function Advanced(a: u32, n: nat): u32 {
    Wrap32(a + n)
  }

  /** A repeated string instruction: over when ECX is zero, else one byte is stored. */
  function RepStep(c: Cpu, b: byte, srcStep: nat): (d: Cpu)
    requires c.Valid() && c.eip + 2 < SIZE
    ensures d.Valid()
  {
    var src: int, dst: int := c.regs[ESI], c.regs[EDI];
    if c.regs[ECX] == 0 then c.(eip := c.eip + 2)
    else
      c.(mem := c.mem[dst := b],
         regs := c.regs[ECX := c.regs[ECX] - 1]
                       [ESI := Advanced(src, srcStep)][EDI := Advanced(dst, 1)])
  }

  /** One step, or None where the instruction is not one of the subset. */
  function Step(c: Cpu): (d: Option<Cpu>)
    requires c.Valid()
    ensures d.Some? ==> d.value.Valid()
  {
    var op, next := c.mem[c.eip], if c.eip + 1 < SIZE then c.mem[c.eip + 1] else 0;
    if 0xB8 <= op < 0xC0 && c.eip + 5 < SIZE then
      Some(c.(eip := c.eip + 5, regs := c.regs[op - 0xB8 := Word(c.mem, c.eip + 1)]))
    else if op == 0xF3 && c.eip + 2 < SIZE && next == 0xA4 then
      Some(RepStep(c, c.mem[c.regs[ESI]], 1))
    else if op == 0xF3 && c.eip + 2 < SIZE && next == 0xAA then
      Some(RepStep(c, c.regs[EAX] % 0x100, 0))
    else if op == 0xFF && next == 0xE2 then
      Some(c.(eip := c.regs[EDX]))
    else
      None
  }

  function Run(c: Cpu, n: nat): (d: Option<Cpu>)
    requires c.Valid()
    ensures d.Some? ==> d.value.Valid()
    decreases n
  {
    if n == 0 then Some(c)
    else
      match Step(c)
      case None => None
      case Some(d) => Run(d, n - 1)
  }

  lemma {:induction false} RunAdd(c: Cpu, a: nat, b: nat, d: Cpu)
    requires c.Valid() && Run(c, a) == Some(d)
    ensures Run(c, a + b) == Run(d, b)
    decreases a
  {
    if a > 0 {
      RunAdd(Step(c).value, a - 1, b, d);
    }
  }

  /** Two runs, one after the other. */
  lemma Then(c: Cpu, a: nat, d: Cpu, b: nat, e: Cpu) returns (k: nat)
    requires c.Valid() && d.Valid() && Run(c, a) == Some(d) && Run(d, b) == Some(e)
    ensures k == a + b && Run(c, k) == Some(e)
  {
    RunAdd(c, a, b, d);
    k := a + b;
  }

  // ---------- instructions ----------

  /** `mov reg, imm32`. */
  function Mov(reg: nat, x: u32): (w: seq<byte>)
    requires reg < 8
    ensures |w| == 5
  {
    [0xB8 + reg] + WordBytes(x)
  }

  const REP_MOVSB: seq<byte> := [0xF3, 0xA4]
  const REP_STOSB: seq<byte> := [0xF3, 0xAA]
  const JMP_EDX: seq<byte> := [0xFF, 0xE2]

  lemma RunMov(c: Cpu, reg: nat, x: u32) returns (d: Cpu)
    requires c.Valid() && reg < 8 && At(c.mem, c.eip, Mov(reg, x)) && c.eip + 5 < SIZE
    ensures d == c.(eip := c.eip + 5, regs := c.regs[reg := x])
    ensures Run(c, 1) == Some(d)
  {
    AtSplit(c.mem, c.eip, [0xB8 + reg], c.eip + 1, WordBytes(x));
    AtWord(c.mem, c.eip + 1, x);
    assert c.mem[c.eip] == [0xB8 + reg][0];
    d := Step(c).value;
    assert Run(d, 0) == Some(d);
  }

  /** What a string instruction leaves behind: all registers but ECX, ESI and EDI. */
  ghost predicate SameRegs(c: Cpu, d: Cpu) {
    |c.regs| == |d.regs| == 8 && forall r :: 0 <= r < 8 && r != ECX && r != ESI && r != EDI ==> c.regs[r] == d.regs[r]
  }

  lemma StepMovsb(c: Cpu) returns (d: Cpu)
    requires c.Valid() && At(c.mem, c.eip, REP_MOVSB) && c.eip + 2 < SIZE
    ensures d == RepStep(c, c.mem[c.regs[ESI]], 1) && Run(c, 1) == Some(d)
  {
    assert c.mem[c.eip] == REP_MOVSB[0] && c.mem[c.eip + 1] == REP_MOVSB[1];
    d := Step(c).value;
    assert Run(d, 0) == Some(d);
  }

  lemma StepStosb(c: Cpu) returns (d: Cpu)
    requires c.Valid() && At(c.mem, c.eip, REP_STOSB) && c.eip + 2 < SIZE
    ensures d == RepStep(c, c.regs[EAX] % 0x100, 0) && Run(c, 1) == Some(d)
  {
    assert c.mem[c.eip] == REP_STOSB[0] && c.mem[c.eip + 1] == REP_STOSB[1];
    d := Step(c).value;
    assert Run(d, 0) == Some(d);
  }

  lemma AdvancedNext(a: u32, n: nat)
    ensures Advanced(Advanced(a, 1), n) == Advanced(a, n + 1)
  {
  }

  /** One turn of `rep movsb` copies a byte, and leaves the rest to be copied. */
  lemma MovsbTurn(c: Cpu, t: nat, s: nat, n: nat) returns (d: Cpu)
    requires c.Valid() && At(c.mem, c.eip, REP_MOVSB) && c.eip + 2 < SIZE
    requires 0 < n == c.regs[ECX] && t == c.regs[EDI] && s == c.regs[ESI]
    requires t + n <= SIZE && s + n <= SIZE && Apart(t, n, s, n) && Apart(t, n, c.eip, 2)
    ensures Run(c, 1) == Some(d) && d.Valid() && d.eip == c.eip && At(d.mem, d.eip, REP_MOVSB)
    ensures d.regs[ECX] == n - 1 && (n > 1 ==> d.regs[EDI] == t + 1 && d.regs[ESI] == s + 1) && SameRegs(c, d)
    ensures Apart(t + 1, n - 1, s + 1, n - 1) && Apart(t + 1, n - 1, d.eip, 2)
    ensures Copied(d.mem, t + 1, s + 1, n - 1) == Copied(c.mem, t, s, n)
    ensures Advanced(d.regs[EDI], n - 1) == Advanced(c.regs[EDI], n)
  {
    d := StepMovsb(c);
    AdvancedNext(t, n - 1);
    CopiedStep(c.mem, t, s, n);
  }

  /** `rep movsb`, when it overwrites neither its source nor itself. */
  lemma {:induction false} RunMovsb(c: Cpu, t: nat, s: nat, n: nat) returns (k: nat, d: Cpu)
    requires c.Valid() && At(c.mem, c.eip, REP_MOVSB) && c.eip + 2 < SIZE
    requires n == c.regs[ECX] && (n > 0 ==> t == c.regs[EDI] && s == c.regs[ESI])
    requires t + n <= SIZE && s + n <= SIZE && (n > 0 ==> Apart(t, n, s, n) && Apart(t, n, c.eip, 2))
    ensures Run(c, k) == Some(d) && d.Valid() && d.eip == c.eip + 2
    ensures d.mem == Copied(c.mem, t, s, n) && SameRegs(c, d)
    ensures d.regs[EDI] == Advanced(c.regs[EDI], n)
    decreases n
  {
    if n == 0 {
      k := 1;
      d := StepMovsb(c);
    } else {
      var next := MovsbTurn(c, t, s, n);
      k, d := RunMovsb(next, t + 1, s + 1, n - 1);
      k := Then(c, 1, next, k, d);
    }
  }

  lemma StosbTurn(c: Cpu, t: nat, n: nat) returns (d: Cpu)
    requires c.Valid() && At(c.mem, c.eip, REP_STOSB) && c.eip + 2 < SIZE
    requires 0 < n == c.regs[ECX] && t == c.regs[EDI] && c.regs[EAX] == 0 && t + n <= SIZE && Apart(t, n, c.eip, 2)
    ensures Run(c, 1) == Some(d) && d.Valid() && d.eip == c.eip && At(d.mem, d.eip, REP_STOSB)
    ensures d.regs[ECX] == n - 1 && d.regs[EAX] == 0 && (n > 1 ==> d.regs[EDI] == t + 1) && SameRegs(c, d)
    ensures Filled(d.mem, t + 1, n - 1, 0) == Filled(c.mem, t, n, 0)
    ensures Advanced(d.regs[EDI], n - 1) == Advanced(c.regs[EDI], n)
  {
    d := StepStosb(c);
    AdvancedNext(t, n - 1);
    FilledStep(c.mem, t, n, 0);
  }

  /** `rep stosb` of a zero, when it does not overwrite itself. */
  lemma {:induction false} RunStosb(c: Cpu, t: nat, n: nat) returns (k: nat, d: Cpu)
    requires c.Valid() && At(c.mem, c.eip, REP_STOSB) && c.eip + 2 < SIZE
    requires n == c.regs[ECX] && (n > 0 ==> t == c.regs[EDI]) && c.regs[EAX] == 0
    requires t + n <= SIZE && (n > 0 ==> Apart(t, n, c.eip, 2))
    ensures Run(c, k) == Some(d) && d.Valid() && d.eip == c.eip + 2
    ensures d.mem == Filled(c.mem, t, n, 0) && SameRegs(c, d)
    ensures d.regs[EDI] == Advanced(c.regs[EDI], n)
    decreases n
  {
    if n == 0 {
      k := 1;
      d := StepStosb(c);
    } else {
      var next := StosbTurn(c, t, n);
      k, d := RunStosb(next, t + 1, n - 1);
      k := Then(c, 1, next, k, d);
    }
  }

  /** `jmp edx`. */
  lemma RunJmp(c: Cpu) returns (d: Cpu)
    requires c.Valid() && At(c.mem, c.eip, JMP_EDX)
    ensures d == c.(eip := c.regs[EDX]) && Run(c, 1) == Some(d)
  {
    assert c.mem[c.eip] == JMP_EDX[0] && c.mem[c.eip + 1] == JMP_EDX[1];
    d := Step(c).value;
    assert Run(d, 0) == Some(d);
  }
}
