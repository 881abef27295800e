/** Concrete families: the assumptions can be met, and the ways the debugger is not faithful. */
module Witnesses {
  import opened Words
  import opened Tracee
  import opened BreakpointTable
  import opened Commands
  import opened Observer
  import opened Overwrites
  import opened Refinement
  import opened Stops
  import opened Theorems
  import opened Lifecycle
  import opened Manual

  // ----- the assumptions can be met

  predicate AllNops(m: Machine) {
    forall i :: 0 <= i < SPACE ==> m.mem[i] == 0x90
  }

  lemma NopStep(m: Machine, h: set<Addr>, text: Text)
    requires AllNops(m)
    ensures Good(m, h, text) && Step(m).Next? && AllNops(Step(m).m)
  {
    hide Effect, Pack;
    assert Wrap(m.regs.rip + 0) == m.regs.rip;
    assert Fetch(m.mem, m.regs.rip, LONGEST)[0] == 0x90;
    OffsetsPositive(h, m.regs.rip);
  }

  lemma OffsetsPositive(h: set<Addr>, a: Addr)
    ensures Inside(h, a, 1)
  {
    forall x | x in h
      ensures x == a || Offset(x, a) >= 1
    {
      OffsetWraps(x, a);
    }
  }

  lemma {:induction false} NopsGoOn(m: Machine, n: nat, h: set<Addr>, text: Text)
    requires AllNops(m)
    ensures Steps(m, n) != [] && Good(Steps(m, n)[0], h, text)
    decreases n
  {
    hide Step, Good, AllNops;
    NopStep(m, h, text);
    if n > 0 {
      NopsGoOn(Step(m).m, n - 1, h, text);
    }
  }

  /** A program of one-byte instructions may be broken anywhere. */
  lemma NopsAreRunnable(elf: Elf, h: set<Addr>)
    requires AllNops(elf.boot) && elf.section.Some? && elf.section.value.hi + 7 < SPACE
    ensures Runnable(ImageOf(elf), h)
  {
    hide Step, Good, Steps, AllNops;
    forall n: nat | Steps(elf.boot, n) != []
      ensures Good(Steps(elf.boot, n)[0], h, ImageOf(elf).text)
    {
      NopsGoOn(elf.boot, n, h, ImageOf(elf).text);
    }
  }

  /** Three instructions: store register 1 where register 0 points, jump to the next, exit. */
  predicate StoreJumpExit(mem: Memory, lo: Addr) {
    && lo + 6 <= SPACE && mem[lo] == 0x89 && mem[lo + 1] == 0x10
    && mem[lo + 2] == 0xeb && mem[lo + 3] == 0x00 && mem[lo + 4] == 0x0f && mem[lo + 5] == 0x05
  }

  lemma DecodesAs(m: Machine, lo: Addr, k: nat)
    requires StoreJumpExit(m.mem, lo) && (k == 0 || k == 2 || k == 4) && m.regs.rip == lo + k
    ensures DecodeAt(m) == Decoded(if k == 0 then Store(0, 1) else if k == 2 then Jmp(0) else Exit, 2)
  {
    hide Pack;
    var s := Fetch(m.mem, m.regs.rip, LONGEST);
    assert Wrap(lo + k + 0) == lo + k && Wrap(lo + k + 1) == lo + k + 1;
    assert s[0] == m.mem[lo + k] && s[1] == m.mem[lo + k + 1];
  }

  lemma StoreStep(m: Machine, lo: Addr)
    requires StoreJumpExit(m.mem, lo) && m.regs.rip == lo
    ensures Step(m) == Next(Machine(m.regs.(rip := lo + 2), Poke(m.mem, AddrOf(m.regs.gpr[0]), m.regs.gpr[1])))
  {
    hide DecodeAt, Peek, Poke, AddrOf;
    DecodesAs(m, lo, 0);
    assert Wrap(lo + 2) == lo + 2;
  }

  lemma JumpStep(m: Machine, lo: Addr)
    requires StoreJumpExit(m.mem, lo) && m.regs.rip == lo + 2
    ensures Step(m) == Next(m.(regs := m.regs.(rip := lo + 4)))
  {
    hide DecodeAt;
    DecodesAs(m, lo, 2);
    assert Wrap(lo + 2 + 2) == lo + 4 && Wrap(lo + 4 + 0) == lo + 4;
  }

  lemma StoreKeepsCode(mem: Memory, text: Text, at: Addr, w: word)
    requires StoreJumpExit(mem, text.lo) && text.lo + 5 <= text.hi && text.Avoids(at)
    ensures StoreJumpExit(Poke(mem, at, w), text.lo)
  {
    hide Bytes;
    var lo := text.lo;
    assert text.Shadows(lo) && text.Shadows(lo + 1) && text.Shadows(lo + 2);
    assert text.Shadows(lo + 3) && text.Shadows(lo + 4) && text.Shadows(lo + 5);
  }

  /** A program that stores, branches and exits, with breakpoints on any of its instructions. */
  lemma StoreJumpExitRuns(elf: Elf, h: set<Addr>)
    requires elf.section.Some? && elf.section.value.lo + 5 <= elf.section.value.hi && elf.section.value.hi + 7 < SPACE
    requires var lo := elf.section.value.lo;
             && StoreJumpExit(elf.boot.mem, lo) && elf.boot.regs.rip == lo
             && lo + 1 !in h && lo + 3 !in h && lo + 5 !in h
    requires elf.section.value.Avoids(AddrOf(elf.boot.regs.gpr[0]))
    ensures Runnable(ImageOf(elf), h)
    ensures EndsFirst(elf.boot, {}, 1, 2) && Step(Steps(elf.boot, 2)[0]).Exited?
    ensures Steps(elf.boot, 2)[0].mem == Poke(elf.boot.mem, AddrOf(elf.boot.regs.gpr[0]), elf.boot.regs.gpr[1])
  {
    hide DecodeAt, Step, Steps, Poke, AddrOf, StoreJumpExit, Text.Avoids;
    var (m, text) := (elf.boot, elf.section.value);
    var lo := text.lo;
    StoreStep(m, lo);
    var m1 := Step(m).m;
    StoreKeepsCode(m.mem, text, AddrOf(m.regs.gpr[0]), m.regs.gpr[1]);
    JumpStep(m1, lo);
    var m2 := Step(m1).m;
    DecodesAs(m, lo, 0);
    DecodesAs(m1, lo, 2);
    DecodesAs(m2, lo, 4);
    ExitStep(m2);
    ThreeSteps(m, m1, m2);
    NotInside(h, lo);
    NotInside(h, lo + 2);
    NotInside(h, lo + 4);
    assert Good(m, h, text) && Good(m1, h, text) && Good(m2, h, text);
    forall n: nat | Steps(m, n) != []
      ensures Good(Steps(m, n)[0], h, text)
    {
    }
  }

  /** There is such a program. */
  ghost function Example(): Elf {
    var mem := seq(SPACE, i requires 0 <= i < SPACE =>
      if i == 0x1000 then 0x89 else if i == 0x1001 then 0x10 else if i == 0x1002 then 0xeb
      else if i == 0x1004 then 0x0f else if i == 0x1005 then 0x05 else 0);
    Elf(0x1000, Some(Text(0x1000, 0x1005)), Machine(Regs(seq(16, _ => 0), 0x1000, 0), mem))
  }

  lemma ExampleRuns()
    ensures Runnable(ImageOf(Example()), {0x1000, 0x1002, 0x1004})
    ensures EndsFirst(Example().boot, {}, 1, 2)
  {
    hide Runnable, EndsFirst, DecodeAt, Poke;
    StoreJumpExitRuns(Example(), {0x1000, 0x1002, 0x1004});
  }

  lemma ExitStep(m: Machine)
    requires DecodeAt(m) == Decoded(Exit, 2)
    ensures Step(m) == Exited
  {
  }

  lemma ThreeSteps(m: Machine, m1: Machine, m2: Machine)
    requires Step(m) == Next(m1) && Step(m1) == Next(m2) && Step(m2).Exited?
    ensures Steps(m, 0) == [m] && Steps(m, 1) == [m1] && Steps(m, 2) == [m2]
    ensures forall n: nat | n > 2 :: Steps(m, n) == []
  {
    hide Step;
    assert Steps(m1, 0) == [m1] && Steps(m1, 1) == [m2] && Steps(m2, 0) == [m2];
    forall n: nat | n > 2
      ensures Steps(m, n) == []
    {
      assert Steps(m, n) == Steps(m1, n - 1) == Steps(m2, n - 2);
    }
  }

  lemma NotInside(h: set<Addr>, a: int)
    ensures 0 <= a && a + 1 < SPACE && a + 1 !in h ==> Inside(h, a, 2)
  {
    if 0 <= a && a + 1 < SPACE && a + 1 !in h {
      forall x | x in h
        ensures x == a || Offset(x, a) >= 2
      {
        OffsetWraps(x, a);
      }
    }
  }

  // ----- five commands in a row

  lemma Peel(d: Dbg, cs: seq<Command>, fuel: nat)
    requires cs != [] && !cs[0].Cont? && !cs[0].Run?
    ensures Exec(d, cs[0], fuel).Some?
    ensures ExecAll(d, cs, fuel) == ExecAll(Exec(d, cs[0], fuel).value, cs[1..], fuel)
  {
    hide DoLoad, DoStart, DoSi, DoBreak, DoDelete, DoSetReg, DoDisasm;
  }

  lemma FiveCommands(d: Dbg, cs: seq<Command>, fuel: nat)
    requires |cs| == 5 && forall c | c in cs :: !c.Cont? && !c.Run?
    ensures var d2 := Exec(Exec(d, cs[0], fuel).value, cs[1], fuel).value;
            var d4 := Exec(Exec(d2, cs[2], fuel).value, cs[3], fuel).value;
            ExecAll(d, cs, fuel) == Some(Exec(d4, cs[4], fuel).value)
  {
    hide DoLoad, DoStart, DoSi, DoBreak, DoDelete, DoSetReg, DoDisasm;
    Peel(d, cs, fuel);
    var d1 := Exec(d, cs[0], fuel).value;
    Peel(d1, cs[1..], fuel);
    var d2 := Exec(d1, cs[1], fuel).value;
    Peel(d2, cs[1..][1..], fuel);
    var d3 := Exec(d2, cs[2], fuel).value;
    Peel(d3, cs[1..][1..][1..], fuel);
    var d4 := Exec(d3, cs[3], fuel).value;
    Peel(d4, cs[1..][1..][1..][1..], fuel);
  }

  /** Load, start, break at `a`, break at `a'`, delete the first of the two. */
  function BreakBreakDelete(elf: Elf, a: Addr, a': Addr): seq<Command> {
    [Command.Load(Some(elf)), Start, Break(Some(a)), Break(Some(a')), Delete(Some(0))]
  }

  lemma AfterBreakBreakDelete(elf: Elf, a: Addr, a': Addr, fuel: nat)
    requires ImageOf(elf).text.Has(a) && ImageOf(elf).text.Has(a')
    ensures var (r, mem) := (ExecAll(INITIAL, BreakBreakDelete(elf, a, a'), fuel), elf.boot.mem);
            && r.Some?
            && r.value.phase == Running(ImageOf(elf), elf.boot.(mem := mem[a := TRAP][a' := TRAP][a := mem[a]]))
            && r.value.table == [Entry(a', Peek(mem[a := TRAP], a'))]
  {
    hide Pack, Bytes, Step, Report, Low;
    var cs := BreakBreakDelete(elf, a, a');
    var d1 := DoLoad(INITIAL, Some(elf));
    var d2 := DoStart(d1);
    var d3 := DoBreak(d2, Some(a));
    var d4 := DoBreak(d3, Some(a'));
    var d5 := DoDelete(d4, Some(0));
    BytesOfPeek(d2.phase.m.mem, a);
    assert d4.table == [Entry(a, Peek(elf.boot.mem, a)), Entry(a', Peek(d3.phase.m.mem, a'))];
    assert d5.table == [Entry(a', Peek(d3.phase.m.mem, a'))];
    FiveCommands(INITIAL, cs, fuel);
  }

  /** Breaking twice at the same place and deleting the first disarms the second, in any program. */
  lemma DuplicateDisarmed(elf: Elf, a: Addr, fuel: nat)
    requires ImageOf(elf).text.Has(a) && elf.boot.mem[a] != TRAP
    ensures var r := ExecAll(INITIAL, BreakBreakDelete(elf, a, a), fuel);
            && r.Some? && r.value.phase.Running?
            && Addrs(r.value.table) == [a] && r.value.phase.m.mem[a] == elf.boot.mem[a] != TRAP
  {
    hide ExecAll, Peek;
    AfterBreakBreakDelete(elf, a, a, fuel);
  }

  /** Breaking at the second byte of an instruction and at the instruction, and deleting the first
      of the two: memory is right again, but `disasm` still shows the trap byte. */
  lemma StaleWordShown(elf: Elf, a: Addr, fuel: nat)
    requires ImageOf(elf).text.Has(a) && a + 1 < SPACE && ImageOf(elf).text.Has(a + 1) && elf.boot.mem[a + 1] != TRAP
    requires DecodeWord(Peek(elf.boot.mem, a)).Decoded? && DecodeWord(Peek(elf.boot.mem, a)).len >= 2
    ensures var r := ExecAll(INITIAL, BreakBreakDelete(elf, a + 1, a), fuel);
            && r.Some? && r.value.phase.Running?
            && Breakpoints(r.value) == {a} && r.value.phase.m.mem == elf.boot.mem[a := TRAP]
            && Translate(a, CodeAt(r.value.phase.m.mem, r.value.table, a)) != Translate(a, Peek(elf.boot.mem, a))
  {
    hide ExecAll, Pack, Bytes, Decode, Low;
    var mem := elf.boot.mem;
    AfterBreakBreakDelete(elf, a + 1, a, fuel);
    var r := ExecAll(INITIAL, BreakBreakDelete(elf, a + 1, a), fuel).value;
    assert mem[a + 1 := TRAP][a := TRAP][a + 1 := mem[a + 1]] == mem[a := TRAP];
    assert Addrs(r.table) == [a];
    assert IndexOf([a], a) == 0;
    var (v, w) := (Peek(mem[a + 1 := TRAP], a), Peek(mem, a));
    BytesOfPeek(mem[a + 1 := TRAP], a);
    BytesOfPeek(mem, a);
    assert Wrap(a + 1) == a + 1;
    assert Bytes(v)[1] == TRAP && Bytes(w)[1] == mem[a + 1];
    var n := DecodeWord(w).len;
    assert Bytes(w)[..n][1] != TRAP;
    if DecodeWord(v).Decoded? && DecodeWord(v).len == n {
      assert Bytes(v)[..n][1] == TRAP;
    }
  }

  // ----- two more sessions

  lemma {:induction false} ExecAppend(d: Dbg, cs: seq<Command>, c: Command, fuel: nat)
    requires ExecAll(d, cs, fuel).Some?
    ensures ExecAll(d, cs + [c], fuel) == Exec(ExecAll(d, cs, fuel).value, c, fuel)
    decreases |cs|
  {
    hide Exec;
    if cs == [] {
      assert (cs + [c])[1..] == [];
    } else {
      assert (cs + [c])[1..] == cs[1..] + [c];
      ExecAppend(Exec(d, cs[0], fuel).value, cs[1..], c, fuel);
    }
  }

  /** With the process standing at a disarmed duplicate `si` executes no instruction, in any program,
      and leaves the process one byte further on. */
  lemma DuplicateSkips(elf: Elf, fuel: nat)
    requires ImageOf(elf).text.Has(elf.boot.regs.rip) && elf.boot.mem[elf.boot.regs.rip] != TRAP
    ensures var a := elf.boot.regs.rip;
            var r := ExecAll(INITIAL, BreakBreakDelete(elf, a, a) + [Si], fuel);
            r.Some? && r.value.phase == Running(ImageOf(elf), elf.boot.(regs := elf.boot.regs.(rip := Wrap(a + 1))))
  {
    hide ExecAll, Pack, Bytes, Low, StepOver, Single, Report;
    var (a, mem) := (elf.boot.regs.rip, elf.boot.mem);
    AfterBreakBreakDelete(elf, a, a, fuel);
    var r := ExecAll(INITIAL, BreakBreakDelete(elf, a, a), fuel).value;
    assert mem[a := TRAP][a := TRAP][a := mem[a]] == mem;
    var e := Entry(a, Peek(mem[a := TRAP], a));
    assert Addrs(r.table) == [a] && IndexOf([a], a) == 0;
    BytesOfPeek(mem[a := TRAP], a);
    OrphanTraps(r.phase.m, e);
    ExecAppend(INITIAL, BreakBreakDelete(elf, a, a), Si, fuel);
  }

  /** Deleting both, the oldest first, leaves nothing listed and a trap byte in the program. */
  lemma TrapLeftBehind(elf: Elf, a: Addr, fuel: nat)
    requires ImageOf(elf).text.Has(a) && elf.boot.mem[a] != TRAP
    ensures var r := ExecAll(INITIAL, BreakBreakDelete(elf, a, a) + [Delete(Some(0))], fuel);
            && r.Some? && r.value.table == []
            && r.value.phase == Running(ImageOf(elf), elf.boot.(mem := elf.boot.mem[a := TRAP]))
  {
    hide ExecAll, Pack, Bytes, Low;
    var mem := elf.boot.mem;
    AfterBreakBreakDelete(elf, a, a, fuel);
    var r := ExecAll(INITIAL, BreakBreakDelete(elf, a, a), fuel).value;
    assert mem[a := TRAP][a := TRAP][a := mem[a]][a := TRAP] == mem[a := TRAP];
    BytesOfPeek(mem[a := TRAP], a);
    ExecAppend(INITIAL, BreakBreakDelete(elf, a, a), Delete(Some(0)), fuel);
  }

  /** And a `cont` from there executes that trap byte: the process stops behind it, no breakpoint is
      reported, and it is left where it stopped. */
  lemma LeftTrapStops(elf: Elf, fuel: nat)
    requires ImageOf(elf).text.Has(elf.boot.regs.rip) && elf.boot.mem[elf.boot.regs.rip] != TRAP && fuel > 0
    ensures var a := elf.boot.regs.rip;
            var before := ExecAll(INITIAL, BreakBreakDelete(elf, a, a) + [Delete(Some(0))], fuel);
            var r := ExecAll(INITIAL, BreakBreakDelete(elf, a, a) + [Delete(Some(0))] + [Cont], fuel);
            && before.Some? && r.Some? && r.value.phase.Running?
            && r.value.phase.m == Machine(elf.boot.regs.(rip := Wrap(a + 1)), elf.boot.mem[a := 0xcc])
            && r.value.log == before.value.log + [HitNothing]
  {
    hide ExecAll, Step, Report, StepOver;
    var (a, u) := (elf.boot.regs.rip, elf.boot);
    var cs := BreakBreakDelete(elf, a, a) + [Delete(Some(0))];
    TrapLeftBehind(elf, a, fuel);
    ExecAppend(INITIAL, cs, Cont, fuel);
    assert Patch(u.mem, {a}) == u.mem[a := TRAP];
    StepOnPatch(u, {a});
    var d := ExecAll(INITIAL, cs, fuel).value;
    assert Addrs(d.table) == [];
    ReportNothing();
  }

  lemma ReportNothing()
    ensures forall a :: Report([], a) == [HitNothing]
  {
    assert Addrs([]) == [];
  }

  /** From the shell: `load`, `start` and `break` list the address exactly if it is in the .text
      section of the file, both ends included; without such a section only the last address is. */
  lemma BreakInSection(elf: Elf, a: Addr, fuel: nat)
    ensures var r := ExecAll(INITIAL, [Command.Load(Some(elf)), Start, Break(Some(a))], fuel);
            && r.Some? && r.value.phase.Running? && r.value.phase.img.boot == elf.boot
            && (Listed(r.value.table, a) <==>
                  if elf.section.Some? then elf.section.value.lo <= a && a <= elf.section.value.hi
                  else a == 0xffff_ffff_ffff_ffff)
  {
    hide Peek, Step, Report;
    var cs := [Command.Load(Some(elf)), Start, Break(Some(a))];
    var d1 := DoLoad(INITIAL, Some(elf));
    var d2 := DoStart(d1);
    Peel(INITIAL, cs, fuel);
    Peel(d1, cs[1..], fuel);
    Peel(d2, cs[1..][1..], fuel);
    LoadDoes(INITIAL, elf);
    StartDoes(d1);
    BreakDoes(d2, a);
    if ImageOf(elf).text.Has(a) {
      assert Entry(a, Peek(d2.phase.m.mem, a)) in DoBreak(d2, Some(a)).table;
    }
  }

  /** A program that stores into the bytes just behind its own instruction: with a breakpoint there,
      `si` takes the program counter on but loses the store. */
  lemma StoreLost(elf: Elf, d: Reg, s: Reg, fuel: nat)
    requires ImageOf(elf).text.Has(elf.boot.regs.rip) && DecodeAt(elf.boot) == Decoded(Store(d, s), 2)
    requires AddrOf(elf.boot.regs.gpr[d]) == Wrap(elf.boot.regs.rip + 2)
    requires Low(elf.boot.regs.gpr[s]) != elf.boot.mem[Wrap(elf.boot.regs.rip + 2)]
    ensures var a, at := elf.boot.regs.rip, Wrap(elf.boot.regs.rip + 2);
            var r := ExecAll(INITIAL, [Command.Load(Some(elf)), Start, Break(Some(a)), Si], fuel);
            && r.Some? && r.value.phase.Running? && Step(elf.boot).Next?
            && Program(r.value).regs == Step(elf.boot).m.regs
            && Program(r.value).mem[at] == elf.boot.mem[at] != Step(elf.boot).m.mem[at]
  {
    hide DecodeAt, Peek, Bytes, Low, Report, Single, DoSi;
    var u := elf.boot;
    var a := u.regs.rip;
    var cs := [Command.Load(Some(elf)), Start, Break(Some(a)), Si];
    var d1 := DoLoad(INITIAL, Some(elf));
    var d2 := DoStart(d1);
    var d3 := DoBreak(d2, Some(a));
    Peel(INITIAL, cs, fuel);
    Peel(d1, cs[1..], fuel);
    Peel(d2, cs[1..][1..], fuel);
    Peel(d3, cs[1..][1..][1..], fuel);
    assert ExecAll(INITIAL, cs, fuel) == Some(DoSi(d3));
    BytesOfPeek(u.mem, a);
    LosesStore(d3, u, Entry(a, Peek(u.mem, a)), d, s);
  }

  lemma LosesStore(debugger: Dbg, u: Machine, e: Entry, d: Reg, s: Reg)
    requires debugger.phase.Running? && debugger.phase.m == u.(mem := u.mem[u.regs.rip := TRAP])
    requires debugger.table == [e] && e.addr == u.regs.rip && Low(e.code) == u.mem[u.regs.rip]
    requires DecodeAt(u) == Decoded(Store(d, s), 2) && AddrOf(u.regs.gpr[d]) == Wrap(u.regs.rip + 2)
    requires Low(u.regs.gpr[s]) != u.mem[Wrap(u.regs.rip + 2)]
    ensures var r, at := DoSi(debugger), Wrap(u.regs.rip + 2);
            && r.phase.Running? && r.phase.img == debugger.phase.img && Step(u).Next?
            && Program(r).regs == Step(u).m.regs && Program(r).mem[at] == u.mem[at] != Step(u).m.mem[at]
  {
    hide DecodeAt, Low, Step, Report, OperandOf, StoreOf, Fetch, Write, StepOver;
    assert Addrs([e]) == [u.regs.rip] && IndexOf([u.regs.rip], u.regs.rip) == 0;
    StepStores(u);
    BytesOfStore(u, d, s);
    StepsOver(u, e);
    StoredAt(u.mem, Wrap(u.regs.rip + 2), StoreOf(u));
    PutBackAt(Step(u).m.mem, u.mem, u.regs.rip);
  }

  lemma StepsOver(u: Machine, e: Entry)
    requires e.addr == u.regs.rip && Low(e.code) == u.mem[u.regs.rip] && Step(u).Next?
    ensures var p := u.mem[u.regs.rip := TRAP];
            StepOver(u.(mem := p), e) == Stopped(Step(u).m.(mem := Write(Step(u).m.mem, e.addr, Fetch(p, e.addr, 8))))
  {
    hide Step, Low, Fetch, Write;
    assert u.mem[u.regs.rip := TRAP][u.regs.rip := u.mem[u.regs.rip]] == u.mem;
  }

  lemma StoredAt(mem: Memory, at: Addr, s: seq<byte>)
    requires |s| == 8
    ensures Write(mem, at, s)[at] == s[0]
  {
  }

  lemma PutBackAt(after: Memory, mem: Memory, a: Addr)
    ensures Write(after, a, Fetch(mem[a := TRAP], a, 8))[Wrap(a + 2)] == mem[Wrap(a + 2)]
  {
    assert Offset(Wrap(a + 2), a) == 2;
  }

  lemma BytesOfStore(u: Machine, d: Reg, s: Reg)
    requires DecodeAt(u) == Decoded(Store(d, s), 2)
    ensures OperandOf(u) == AddrOf(u.regs.gpr[d]) && |StoreOf(u)| == 8 && StoreOf(u)[0] == Low(u.regs.gpr[s])
  {
    hide Decode;
  }
}
