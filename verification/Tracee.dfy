/** The process under the debugger: a small machine with variable-length instructions.

    The instruction set stands in for x86-64. What matters to a breakpoint is kept: encodings
    of different lengths, a one-byte trap, memory operands that could reach the code, a stack,
    and one encoding longer than the seven bytes the disassembler is given. */
module Tracee {
  import opened Words

  type Gpr = r: seq<word> | |r| == 16 witness [0, 0, 0, 0, 0, 0, 0, 0, 0, 0, 0, 0, 0, 0, 0, 0]
  type Reg = r: nat | r < 16

  const RSP: Reg := 4

  datatype Regs = Regs(gpr: Gpr, rip: Addr, flags: word)
  datatype Machine = Machine(regs: Regs, mem: Memory)

  datatype Instr =
    | Nop
    | Int3
    | Exit
    | Add(dst: Reg, src: Reg)
    | AddImm(dst: Reg, imm: byte)
    | MovImm(dst: Reg, value: word)
    | Cmp(left: Reg, right: Reg)
    | Jmp(rel: int)
    | Jz(rel: int)
    | JmpReg(target: Reg)
    | Call(rel: int)
    | Ret
    | Load(dst: Reg, src: Reg)
    | Store(dst: Reg, src: Reg)

  /** An instruction and the number of bytes that encode it. */
  datatype Decoded = Illegal | Decoded(ins: Instr, len: nat)

  function Hi(b: byte): Reg { ((b >> 4) & 0x0f) as int }

  function Lo(b: byte): Reg { (b & 0x0f) as int }

  function Signed(b: byte): int {
    if b < 0x80 then b as int else b as int - 0x100
  }

  const LONGEST: nat := 10

  /** Decode the instruction at the front of `s`; `Illegal` when there is none or when `s` ends
      before it does. */
  function Decode(s: seq<byte>): (d: Decoded)
    ensures d.Decoded? ==> 1 <= d.len <= |s| && d.len <= LONGEST
    ensures d.Decoded? && d.ins.Int3? ==> s[0] == TRAP
  {
    if |s| < 1 then Illegal
    else if s[0] == 0x90 then Decoded(Nop, 1)
    else if s[0] == TRAP then Decoded(Int3, 1)
    else if s[0] == 0xc3 then Decoded(Ret, 1)
    else if |s| < 2 then Illegal
    else if s[0] == 0x0f then if s[1] == 0x05 then Decoded(Exit, 2) else Illegal
    else if s[0] == 0x01 then Decoded(Add(Lo(s[1]), Hi(s[1])), 2)
    else if s[0] == 0x39 then Decoded(Cmp(Lo(s[1]), Hi(s[1])), 2)
    else if s[0] == 0x8b then Decoded(Load(Lo(s[1]), Hi(s[1])), 2)
    else if s[0] == 0x89 then Decoded(Store(Lo(s[1]), Hi(s[1])), 2)
    else if s[0] == 0xeb then Decoded(Jmp(Signed(s[1])), 2)
    else if s[0] == 0x74 then Decoded(Jz(Signed(s[1])), 2)
    else if s[0] == 0xff then Decoded(JmpReg(Lo(s[1])), 2)
    else if |s| < 3 then Illegal
    else if s[0] == 0x83 then Decoded(AddImm(Lo(s[1]), s[2]), 3)
    else if |s| < 5 then Illegal
    else if s[0] == 0xe8 then
      Decoded(Call(s[1] as int + 0x100 * s[2] as int + 0x1_0000 * s[3] as int + 0x100_0000 * Signed(s[4])), 5)
    else if |s| < 10 then Illegal
    else if s[0] == 0xb8 then Decoded(MovImm(Lo(s[1]), Pack(s[2..10])), 10)
    else Illegal
  }

  /** Decoding depends on no byte beyond the instruction it finds. */
  lemma DecodePrefix(s: seq<byte>, t: seq<byte>)
    requires Decode(s).Decoded?
    requires Decode(s).len <= |t| && t[..Decode(s).len] == s[..Decode(s).len]
    ensures Decode(t) == Decode(s)
  {
    var n := Decode(s).len;
    assert forall k :: 0 <= k < n ==> t[k] == t[..n][k] == s[..n][k] == s[k];
    if n == 10 {
      assert t[2..10] == s[2..10];
    }
  }

  function AddrOf(w: word): Addr { w as int }

  function WordOf(a: Addr): word { a as word }

  /** The address of the eight bytes an instruction reads or writes, if it touches memory. */
  function Access(ins: Instr, r: Regs): (at: seq<Addr>)
    ensures |at| <= 1
  {
    match ins
    case Load(_, s) => [AddrOf(r.gpr[s])]
    case Store(d, _) => [AddrOf(r.gpr[d])]
    case Call(_) => [AddrOf(r.gpr[RSP] - 8)]
    case Ret => [AddrOf(r.gpr[RSP])]
    case _ => []
  }

  /** The registers after an instruction, given the word `data` at its memory operand, and the
      word it stores there, if any. `next` is the address of the following instruction. */
  function Effect(ins: Instr, next: Addr, r: Regs, data: word): (Regs, seq<word>) {
    match ins
    case Add(d, s) => (r.(gpr := r.gpr[d := r.gpr[d] + r.gpr[s]], rip := next), [])
    case AddImm(d, v) => (r.(gpr := r.gpr[d := r.gpr[d] + v as word], rip := next), [])
    case MovImm(d, v) => (r.(gpr := r.gpr[d := v], rip := next), [])
    case Cmp(a, b) => (r.(flags := if r.gpr[a] == r.gpr[b] then 0x40 else 0, rip := next), [])
    case Jmp(rel) => (r.(rip := Wrap(next + rel)), [])
    case Jz(rel) => (r.(rip := if r.flags & 0x40 != 0 then Wrap(next + rel) else next), [])
    case JmpReg(s) => (r.(rip := AddrOf(r.gpr[s])), [])
    case Call(rel) => (r.(gpr := r.gpr[RSP := r.gpr[RSP] - 8], rip := Wrap(next + rel)), [WordOf(next)])
    case Ret => (r.(gpr := r.gpr[RSP := r.gpr[RSP] + 8], rip := AddrOf(data)), [])
    case Load(d, _) => (r.(gpr := r.gpr[d := data], rip := next), [])
    case Store(_, s) => (r.(rip := next), [r.gpr[s]])
    case _ => (r.(rip := next), [])
  }

  datatype Outcome = Next(m: Machine) | Trapped(m: Machine) | Exited | Fault

  function DecodeAt(m: Machine): Decoded {
    Decode(Fetch(m.mem, m.regs.rip, LONGEST))
  }

  /** One instruction. The trap opcode changes nothing but the program counter, which it leaves
      just past itself. */
  function Step(m: Machine): Outcome {
    var d := DecodeAt(m);
    if d.Illegal? then Fault
    else if d.ins.Exit? then Exited
    else
      var next := Wrap(m.regs.rip + d.len);
      if d.ins.Int3? then Trapped(m.(regs := m.regs.(rip := next)))
      else
        var at := Access(d.ins, m.regs);
        var data := if at == [] then 0 else Peek(m.mem, at[0]);
        var (regs, store) := Effect(d.ins, next, m.regs, data);
        Next(Machine(regs, if at == [] || store == [] then m.mem else Poke(m.mem, at[0], store[0])))
  }

  /** The machine after `n` instructions, or nothing if it exited, trapped or faulted before. */
  function Steps(m: Machine, n: nat): (s: seq<Machine>)
    ensures |s| <= 1
    decreases n
  {
    if n == 0 then [m]
    else
      match Step(m)
      case Next(after) => Steps(after, n - 1)
      case _ => []
  }

  lemma {:induction false} StepsAppend(m: Machine, n: nat, k: nat)
    requires Steps(m, n) != []
    ensures Steps(m, n + k) == Steps(Steps(m, n)[0], k)
    decreases n
  {
    hide Step;
    if n > 0 {
      var after := Step(m).m;
      StepsAppend(after, n - 1, k);
      assert Steps(m, n) == Steps(after, n - 1);
      assert Steps(m, n + k) == Steps(after, n + k - 1);
    }
  }

  // ----- a patched machine against an unpatched one

  function Patched(m: Machine, b: set<Addr>): Machine {
    m.(mem := Patch(m.mem, b))
  }

  /** The addresses whose bytes the debugger may disturb: the text range and the seven bytes
      after it, which belong to the word of a breakpoint on its last byte. */
  datatype Text = Text(lo: Addr, hi: Addr)
  {
    predicate Has(a: Addr) { lo <= a <= hi }
    ghost predicate Shadows(a: Addr) { lo <= a <= hi + 7 }
    /** The eight bytes from `a` stay out of the shadow. */
    ghost predicate Avoids(a: Addr) { forall x: Addr | Shadows(x) :: Offset(x, a) >= 8 }
  }

  /** An instruction with a memory operand either reads it or stores there. */
  predicate Reads(ins: Instr) { ins.Load? || ins.Ret? }

  /** What the debugger assumes of the instruction about to run: it is a real one, no address
      of `h` lies strictly inside it or under what it reads, and it does not store into code. */
  ghost predicate Good(m: Machine, h: set<Addr>, text: Text) {
    var d := DecodeAt(m);
    && d.Decoded? && !d.ins.Int3?
    && Inside(h, m.regs.rip, d.len)
    && forall at | at in Access(d.ins, m.regs) :: if Reads(d.ins) then Clear(h, at, 8) else text.Avoids(at)
  }

  /** No address of `h` is strictly inside the `n` bytes from `a`. */
  ghost predicate Inside(h: set<Addr>, a: Addr, n: nat) {
    forall x | x in h :: x == a || Offset(x, a) >= n
  }

  /** Every instruction the machine goes on to execute is good. */
  ghost predicate Behaved(m: Machine, h: set<Addr>, text: Text) {
    forall n: nat :: Steps(m, n) != [] ==> Good(Steps(m, n)[0], h, text)
  }

  lemma BehavedNow(m: Machine, h: set<Addr>, text: Text)
    requires Behaved(m, h, text)
    ensures Good(m, h, text)
  {
    assert Steps(m, 0) == [m];
  }

  lemma BehavedNext(m: Machine, h: set<Addr>, text: Text)
    requires Behaved(m, h, text)
    ensures Step(m).Next? || Step(m).Exited?
    ensures Step(m).Next? ==> Behaved(Step(m).m, h, text)
  {
    BehavedNow(m, h, text);
    if Step(m).Next? {
      forall n: nat | Steps(Step(m).m, n) != []
        ensures Good(Steps(Step(m).m, n)[0], h, text)
      {
        assert Steps(m, n + 1) == Steps(Step(m).m, n);
      }
    }
  }

  lemma BehavedAt(m: Machine, n: nat, h: set<Addr>, text: Text)
    requires Behaved(m, h, text) && Steps(m, n) != []
    ensures Behaved(Steps(m, n)[0], h, text)
  {
    hide Step, Good;
    forall k: nat | Steps(Steps(m, n)[0], k) != []
      ensures Good(Steps(Steps(m, n)[0], k)[0], h, text)
    {
      StepsAppend(m, n, k);
    }
  }

  lemma DecodeTrap(s: seq<byte>)
    requires s != [] && s[0] == TRAP
    ensures Decode(s) == Decoded(Int3, 1)
  {
  }

  /** On a breakpoint the patched machine traps at once, just past the trap opcode. */
  lemma StepOnPatch(m: Machine, b: set<Addr>)
    requires m.regs.rip in b
    ensures Step(Patched(m, b)) == Trapped(Patched(m, b).(regs := m.regs.(rip := Wrap(m.regs.rip + 1))))
  {
    hide Decode, Effect, Access, Pack;
    assert Wrap(m.regs.rip + 0) == m.regs.rip;
    DecodeTrap(Fetch(Patched(m, b).mem, m.regs.rip, LONGEST));
  }

  lemma DecodePatched(m: Machine, b: set<Addr>, h: set<Addr>, text: Text)
    requires m.regs.rip !in b && b <= h && Good(m, h, text)
    ensures DecodeAt(Patched(m, b)) == DecodeAt(m)
  {
    hide Access;
    var s, t := Fetch(m.mem, m.regs.rip, LONGEST), Fetch(Patch(m.mem, b), m.regs.rip, LONGEST);
    var n := Decode(s).len;
    FetchPatched(m.mem, b, m.regs.rip, n);
    assert s[..n] == Fetch(m.mem, m.regs.rip, n);
    assert t[..n] == Fetch(Patch(m.mem, b), m.regs.rip, n);
    DecodePrefix(s, t);
  }

  /** Off a breakpoint the patched machine does what the unpatched one does. */
  lemma StepOffPatch(m: Machine, b: set<Addr>, h: set<Addr>, text: Text)
    requires m.regs.rip !in b && b <= h && (forall x | x in b :: text.Has(x))
    requires Good(m, h, text)
    ensures Step(m).Next? || Step(m).Exited?
    ensures Step(Patched(m, b)) == if Step(m).Exited? then Exited else Next(Patched(Step(m).m, b))
  {
    hide Decode, Effect, Access, Pack, Bytes, Fetch, Write;
    DecodePatched(m, b, h, text);
    var d := DecodeAt(m);
    var at := Access(d.ins, m.regs);
    if at != [] && !d.ins.Exit? {
      assert at[0] in at;
      ReadsStoreNothing(d.ins, Wrap(m.regs.rip + d.len), m.regs, Peek(m.mem, at[0]));
      FetchPatched(m.mem, b, at[0], 8);
      var (_, store) := Effect(d.ins, Wrap(m.regs.rip + d.len), m.regs, Peek(m.mem, at[0]));
      if store != [] {
        WritePatched(m.mem, b, at[0], Bytes(store[0]));
      }
    }
  }

  lemma ReadsStoreNothing(ins: Instr, next: Addr, r: Regs, data: word)
    ensures Reads(ins) ==> Effect(ins, next, r, data).1 == []
  {
  }

  /** A good step leaves the shadow of the text as it was. */
  lemma StepKeepsText(m: Machine, h: set<Addr>, text: Text, x: Addr)
    requires Good(m, h, text) && Step(m).Next? && text.Shadows(x)
    ensures Step(m).m.mem[x] == m.mem[x]
  {
    hide DecodeAt, Effect, Access, Peek, Poke, Wrap;
    var d := DecodeAt(m);
    var at := Access(d.ins, m.regs);
    if at != [] {
      assert at[0] in at;
      var (_, store) := Effect(d.ins, Wrap(m.regs.rip + d.len), m.regs, Peek(m.mem, at[0]));
      ReadsStoreNothing(d.ins, Wrap(m.regs.rip + d.len), m.regs, Peek(m.mem, at[0]));
      if store != [] {
        PokeAway(m.mem, at[0], store[0], x);
      }
    }
  }

  lemma PokeAway(mem: Memory, at: Addr, w: word, x: Addr)
    requires Offset(x, at) >= 8
    ensures Poke(mem, at, w)[x] == mem[x]
  {
    hide Bytes;
  }
}
