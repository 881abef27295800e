/** When the program stores where the debugger writes: exactly when a step-over is still right. */
module Overwrites {
  import opened Words
  import opened Tracee
  import opened BreakpointTable
  import opened Commands

  /** The bytes the next instruction stores; none for most instructions. */
  function StoreOf(m: Machine): (s: seq<byte>)
    ensures |s| <= 8
  {
    match DecodeAt(m)
    case Decoded(Store(_, s), _) => Bytes(m.regs.gpr[s])
    case Decoded(Call(_), n) => Bytes(WordOf(Wrap(m.regs.rip + n)))
    case _ => []
  }

  /** How many bytes it reads. */
  function ReadOf(m: Machine): (n: nat)
    ensures n <= 8
  {
    match DecodeAt(m)
    case Decoded(Load(_, _), _) => 8
    case Decoded(Ret, _) => 8
    case _ => 0
  }

  /** Where it stores them or reads them from. */
  function OperandOf(m: Machine): Addr {
    match DecodeAt(m)
    case Decoded(ins, _) => (var at := Access(ins, m.regs); if at == [] then 0 else at[0])
    case Illegal => 0
  }

  /** An instruction that neither traps nor ends the process. */
  predicate Ordinary(m: Machine) {
    DecodeAt(m).Decoded? && !DecodeAt(m).ins.Int3? && !DecodeAt(m).ins.Exit?
  }

  lemma StepStores(m: Machine)
    requires Ordinary(m)
    ensures Step(m).Next? && Step(m).m.mem == Write(m.mem, OperandOf(m), StoreOf(m))
  {
    hide Decode, Bytes, Pack, Fetch;
    if StoreOf(m) == [] {
      assert Write(m.mem, OperandOf(m), []) == m.mem;
    }
  }

  lemma StepRegs(m: Machine)
    requires Ordinary(m)
    ensures var d := DecodeAt(m);
            Step(m).Next? && Step(m).m.regs ==
              Effect(d.ins, Wrap(m.regs.rip + d.len), m.regs, if ReadOf(m) == 0 then 0 else Peek(m.mem, OperandOf(m))).0
  {
    hide DecodeAt, Decode, Peek, Poke, Fetch, Bytes, Write, AddrOf, WordOf, Wrap, Pack;
  }

  lemma EffectOfData(ins: Instr, next: Addr, r: Regs, v: word, w: word)
    requires ins.Load? || ins.Ret?
    ensures Effect(ins, next, r, v).0 == Effect(ins, next, r, w).0 <==> v == w
  {
    hide AddrOf;
    AddrOfInjective(v, w);
    if ins.Load? {
      assert Effect(ins, next, r, v).0.gpr[ins.dst] == v;
      assert Effect(ins, next, r, w).0.gpr[ins.dst] == w;
    }
  }

  /** Two machines with the same registers about to execute the same instruction go on to the same
      registers exactly when they read the same bytes. */
  lemma SameRegs(m: Machine, p: Machine)
    requires Ordinary(m) && DecodeAt(p) == DecodeAt(m) && p.regs == m.regs
    ensures Step(m).Next? && Step(p).Next?
    ensures Step(p).m.regs == Step(m).m.regs
            <==> Fetch(p.mem, OperandOf(m), ReadOf(m)) == Fetch(m.mem, OperandOf(m), ReadOf(m))
  {
    hide Step, DecodeAt, Effect, Access, Peek, Fetch;
    StepRegs(m);
    StepRegs(p);
    var (d, a) := (DecodeAt(m), OperandOf(m));
    if ReadOf(m) == 0 {
      assert Fetch(p.mem, a, 0) == Fetch(m.mem, a, 0);
    } else {
      SamePeek(m.mem, p.mem, a);
      EffectOfData(d.ins, Wrap(m.regs.rip + d.len), m.regs, Peek(p.mem, a), Peek(m.mem, a));
    }
  }

  lemma SameOperand(m: Machine, p: Machine)
    requires DecodeAt(p) == DecodeAt(m) && p.regs == m.regs
    ensures OperandOf(p) == OperandOf(m) && StoreOf(p) == StoreOf(m)
  {
    hide DecodeAt, Access, Bytes, WordOf, Wrap;
  }

  lemma SamePeek(m: Memory, p: Memory, a: Addr)
    ensures Peek(p, a) == Peek(m, a) <==> Fetch(p, a, 8) == Fetch(m, a, 8)
  {
    hide Pack, Bytes, Fetch;
    BytesOfPack(Fetch(p, a, 8));
    BytesOfPack(Fetch(m, a, 8));
  }

  lemma AddrOfInjective(v: word, w: word)
    ensures AddrOf(v) == AddrOf(w) ==> v == w
  {
    hide AddrOf;
    AddrRoundTrip(v);
    AddrRoundTrip(w);
  }

  lemma AddrRoundTrip(w: word)
    ensures WordOf(AddrOf(w)) == w
  {
  }

  /** Fetching from patched memory is right exactly where every address of `b` in the range has a
      trap byte anyway. */
  lemma FetchExact(m: Memory, b: set<Addr>, a: Addr, n: nat)
    requires n <= 8
    ensures Fetch(Patch(m, b), a, n) == Fetch(m, a, n) <==> forall x | x in b && Offset(x, a) < n :: m[x] == TRAP
  {
    var s, t := Fetch(Patch(m, b), a, n), Fetch(m, a, n);
    if s == t {
      forall x | x in b && Offset(x, a) < n
        ensures m[x] == TRAP
      {
        OffsetWraps(x, a);
        assert s[Offset(x, a)] == t[Offset(x, a)];
      }
    } else {
      var k :| 0 <= k < n && s[k] != t[k];
      assert Offset(Wrap(a + k), a) == k;
    }
  }

  /** What the step-over needs of the state before it: a byte stored among the seven behind the
      breakpoint is what is there already, unless it lies under a breakpoint; a byte stored under
      any other breakpoint is a trap byte; and so is a byte read from under one. */
  ghost predicate Undisturbed(u: Machine, b: set<Addr>) {
    var (a, at, s) := (u.regs.rip, OperandOf(u), StoreOf(u));
    && (forall i: Addr | Offset(i, at) < |s| ::
          && (0 < Offset(i, a) < 8 && i !in b ==> s[Offset(i, at)] == u.mem[i])
          && (Offset(i, a) >= 8 && i in b ==> s[Offset(i, at)] == TRAP))
    && (forall i | i in b && i != a && Offset(i, at) < ReadOf(u) :: u.mem[i] == TRAP)
  }

  lemma PutBackExact(m: Memory, b: set<Addr>, a: Addr, at: Addr, s: seq<byte>)
    requires a in b && |s| <= 8
    ensures Write(Write(Patch(m, b - {a}), at, s), a, Fetch(Patch(m, b), a, 8)) == Patch(Write(m, at, s), b)
            <==> forall i: Addr | Offset(i, at) < |s| ::
                   && (0 < Offset(i, a) < 8 && i !in b ==> s[Offset(i, at)] == m[i])
                   && (Offset(i, a) >= 8 && i in b ==> s[Offset(i, at)] == TRAP)
  {
    var after, right := Write(Write(Patch(m, b - {a}), at, s), a, Fetch(Patch(m, b), a, 8)), Patch(Write(m, at, s), b);
    forall i | 0 <= i < SPACE
      ensures after[i] == right[i] <==>
                (Offset(i, at) < |s| ==>
                   && (0 < Offset(i, a) < 8 && i !in b ==> s[Offset(i, at)] == m[i])
                   && (Offset(i, a) >= 8 && i in b ==> s[Offset(i, at)] == TRAP))
    {
      OffsetWraps(i, a);
    }
  }

  /** Exactly when a step-over executes one instruction of the program and leaves the patches as
      they were. */
  lemma StepOverExact(u: Machine, b: set<Addr>, e: Entry)
    requires Ordinary(u) && u.regs.rip in b && Inside(b, u.regs.rip, DecodeAt(u).len)
    requires e.addr == u.regs.rip && Low(e.code) == u.mem[u.regs.rip]
    ensures Step(u).Next?
    ensures StepOver(Patched(u, b), e) == Stopped(Patched(Step(u).m, b)) <==> Undisturbed(u, b)
  {
    hide Step, DecodeAt, Low, OperandOf, StoreOf, ReadOf;
    var a := u.regs.rip;
    var p := Patched(u, b - {a});
    assert Patch(u.mem, b)[a := u.mem[a]] == p.mem;
    SameFetch(u, b - {a});
    SameOperand(u, p);
    StepStores(u);
    StepStores(p);
    SameRegs(u, p);
    FetchExact(u.mem, b - {a}, OperandOf(u), ReadOf(u));
    PutBackExact(u.mem, b, a, OperandOf(u), StoreOf(u));
  }

  lemma SameFetch(u: Machine, b: set<Addr>)
    requires DecodeAt(u).Decoded? && Clear(b, u.regs.rip, DecodeAt(u).len)
    ensures DecodeAt(Patched(u, b)) == DecodeAt(u)
  {
    hide Access, Pack, Bytes;
    var s, t := Fetch(u.mem, u.regs.rip, LONGEST), Fetch(Patch(u.mem, b), u.regs.rip, LONGEST);
    var n := Decode(s).len;
    FetchPatched(u.mem, b, u.regs.rip, n);
    assert s[..n] == Fetch(u.mem, u.regs.rip, n);
    assert t[..n] == Fetch(Patch(u.mem, b), u.regs.rip, n);
    DecodePrefix(s, t);
  }
}
