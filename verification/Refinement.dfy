/** The debugger, which patches the program, does and prints what the observer does, which
    does not.

    `h` is a set of addresses that contains every breakpoint ever set. The assumptions about
    the program are in `Behaved` (Tracee) and `Admissible` (here). */
module Refinement {
  import opened Words
  import opened Tracee
  import opened BreakpointTable
  import opened Commands
  import opened Observer
  import opened Overwrites

  // ----- the coupling

  /** The word of a breakpoint on the last text byte is still inside the address space. */
  ghost predicate Proper(text: Text) { text.hi + 7 < SPACE }

  ghost predicate SameText(mem: Memory, img: Image) {
    forall x: Addr | img.text.Shadows(x) :: mem[x] == img.boot.mem[x]
  }

  /** The bytes of `code` above the first are those of `mem` from `a`, but for addresses that
      have carried a breakpoint: a saved word is not refreshed when a neighbour goes. */
  ghost predicate Saved(code: word, mem: Memory, a: Addr, h: set<Addr>) {
    forall k | 1 <= k < 8 :: Bytes(code)[k] == mem[Wrap(a + k)] || Wrap(a + k) in h
  }

  /** The first entry for an address keeps the program's byte; a later one keeps the trap byte
      its predecessor had put there. */
  ghost predicate EntryOk(t: seq<Entry>, j: nat, img: Image, h: set<Addr>)
    requires j < |t|
  {
    var e := t[j];
    && img.text.Has(e.addr) && e.addr in h
    && Low(e.code) == (if IndexOf(Addrs(t), e.addr) == j then img.boot.mem[e.addr] else TRAP)
    && Saved(e.code, img.boot.mem, e.addr, h)
  }

  ghost predicate TableOk(t: seq<Entry>, img: Image, h: set<Addr>) {
    forall j | 0 <= j < |t| :: EntryOk(t, j, img, h)
  }

  /** An image the debugger may be asked to run. */
  ghost predicate Runnable(img: Image, h: set<Addr>) {
    Proper(img.text) && Behaved(img.boot, h, img.text)
  }

  /** The process is the observed one with a trap byte at each breakpoint. */
  ghost predicate Mirrors(img: Image, m: Machine, u: Machine, t: seq<Entry>, h: set<Addr>) {
    && m == Patched(u, AddrSet(Addrs(t)))
    && SameText(u.mem, img) && Behaved(u, h, img.text)
  }

  /** What the two have printed is not part of it. */
  ghost predicate Coupled(d: Dbg, o: Obs, h: set<Addr>) {
    && d.ripSet == o.ripSet && Addrs(d.table) == o.addrs
    && match (d.phase, o.phase)
       case (NoLoad, NoLoad) => d.table == []
       case (Loaded(img), Loaded(img')) => img == img' && Runnable(img, h) && TableOk(d.table, img, h)
       case (Running(img, m), Running(img', u)) =>
         img == img' && Runnable(img, h) && TableOk(d.table, img, h) && Mirrors(img, m, u, d.table, h)
       case _ => false
  }

  // ----- what a command may assume

  /** How many bytes of the word at `a` the disassembler looks at. */
  function Reach(code: word): nat {
    var d := DecodeWord(code);
    if d.Decoded? then d.len else WINDOW
  }

  /** No address of `h` is strictly inside anything the survey decodes. */
  ghost predicate SurveyClear(mem: Memory, text: Text, a: Addr, n: nat, h: set<Addr>)
    decreases n
  {
    n > 0 && text.Has(a) ==>
      && Inside(h, a, Reach(Peek(mem, a)))
      && SurveyClear(mem, text, Wrap(a + LengthOf(Peek(mem, a))), n - 1, h)
  }

  /** Deleting entry `i` takes the oldest entry of its address while a newer one remains. */
  predicate Orphans(s: seq<Addr>, i: nat)
    requires i < |s|
  {
    IndexOf(s, s[i]) == i && s[i] in s[i + 1..]
  }

  /** When deleting is harmless: the entry is not the oldest of several for its address, or the
      program itself has a trap byte there. */
  ghost predicate Harmless(s: seq<Addr>, i: nat, mem: Memory)
    requires i < |s|
  {
    Orphans(s, i) ==> mem[s[i]] == TRAP
  }

  ghost predicate Admissible(o: Obs, c: Command, h: set<Addr>) {
    match c
    case Load(Some(elf)) => o.phase.NoLoad? ==> Runnable(ImageOf(elf), h)
    case Break(Some(a)) => o.phase.Running? && o.phase.img.text.Has(a) ==> a in h
    case Delete(Some(i)) =>
      o.phase.Running? && 0 <= i < |o.addrs| ==> Harmless(o.addrs, i, o.phase.m.mem)
    case SetReg(Some(t), v) =>
      o.phase.Running? ==> Behaved(o.phase.m.(regs := SetRegs(o.phase.m.regs, t, v)), h, o.phase.img.text)
    case _ => true
  }

  ghost predicate AllAdmissible(o: Obs, cs: seq<Command>, fuel: nat, h: set<Addr>)
    decreases |cs|
  {
    cs != [] ==>
      && Admissible(o, cs[0], h)
      && (SeeCommand(o, cs[0], fuel).Some? ==> AllAdmissible(SeeCommand(o, cs[0], fuel).value, cs[1..], fuel, h))
  }

  /** What only the output of a command needs: `disasm` decodes nothing that has an address of
      `h` strictly inside. */
  ghost predicate Legible(o: Obs, c: Command, h: set<Addr>) {
    match c
    case Disasm(Some(a)) => o.phase.Running? ==> SurveyClear(o.phase.m.mem, o.phase.img.text, a, N_DISASM_INS, h)
    case _ => true
  }

  ghost predicate AllLegible(o: Obs, cs: seq<Command>, fuel: nat, h: set<Addr>)
    decreases |cs|
  {
    cs != [] ==>
      && Legible(o, cs[0], h)
      && (SeeCommand(o, cs[0], fuel).Some? ==> AllLegible(SeeCommand(o, cs[0], fuel).value, cs[1..], fuel, h))
  }

  // ----- disassembly

  lemma BytesOfPeek(mem: Memory, a: Addr)
    ensures Bytes(Peek(mem, a)) == Fetch(mem, a, 8)
    ensures Low(Peek(mem, a)) == mem[a]
  {
    BytesOfPack(Fetch(mem, a, 8));
    assert Low(Peek(mem, a)) == Bytes(Peek(mem, a))[0];
    assert Wrap(a + 0) == a;
  }

  /** The text of a line depends on no byte behind the ones it reaches. */
  lemma SameDecode(v: word, w: word, a: Addr)
    requires Bytes(v)[..Reach(w)] == Bytes(w)[..Reach(w)]
    ensures Translate(a, v) == Translate(a, w) && LengthOf(v) == LengthOf(w)
  {
    hide Decode, Bytes;
    var n, s, t := Reach(w), Bytes(w)[..WINDOW], Bytes(v)[..WINDOW];
    assert s[..n] == Bytes(w)[..n] && t[..n] == Bytes(v)[..n];
    if DecodeWord(w).Decoded? {
      DecodePrefix(s, t);
    }
  }

  lemma FirstByte(w: word)
    ensures Bytes(w)[0] == Low(w)
  {
  }

  lemma OffsetOf(a: Addr, k: nat)
    requires k < SPACE
    ensures Offset(Wrap(a + k), a) == k
  {
  }

  lemma SameBytes(code: word, mem: Memory, a: Addr, h: set<Addr>, n: nat)
    requires Low(code) == mem[a] && Saved(code, mem, a, h)
    requires n <= WINDOW && Inside(h, a, n)
    ensures Bytes(code)[..n] == Bytes(Peek(mem, a))[..n]
  {
    hide Pack, Peek, Bytes, Low, Wrap;
    var s, t := Bytes(Peek(mem, a)), Bytes(code);
    BytesOfPeek(mem, a);
    forall k | 0 <= k < n
      ensures t[k] == s[k]
    {
      OffsetOf(a, k);
      FirstByte(code);
      FirstByte(Peek(mem, a));
    }
  }

  /** A word that is right wherever no breakpoint has been disassembles like the program, when
      no breakpoint has been strictly inside the instruction. */
  lemma SameLine(code: word, mem: Memory, a: Addr, h: set<Addr>)
    requires Low(code) == mem[a] && Saved(code, mem, a, h)
    requires Inside(h, a, Reach(Peek(mem, a)))
    ensures Translate(a, code) == Translate(a, Peek(mem, a))
    ensures LengthOf(code) == LengthOf(Peek(mem, a))
  {
    hide Decode, Pack, Peek, Bytes, Low, Saved, Inside, Translate, LengthOf;
    SameBytes(code, mem, a, h, Reach(Peek(mem, a)));
    SameDecode(code, Peek(mem, a), a);
  }

  /** Where a good instruction stands, no breakpoint is inside what the disassembler looks at. */
  lemma GoodReach(u: Machine, h: set<Addr>, text: Text)
    requires Good(u, h, text)
    ensures Inside(h, u.regs.rip, Reach(Peek(u.mem, u.regs.rip)))
  {
    hide Decode, Access, Pack, Bytes;
    var a := u.regs.rip;
    var s, t := Fetch(u.mem, a, LONGEST), Bytes(Peek(u.mem, a))[..WINDOW];
    BytesOfPeek(u.mem, a);
    if Decode(t).Decoded? {
      assert s[..Decode(t).len] == t[..Decode(t).len];
      DecodePrefix(t, s);
    } else if Decode(s).len <= WINDOW {
      assert t[..Decode(s).len] == s[..Decode(s).len];
      DecodePrefix(s, t);
    }
  }

  /** The text byte positions a saved word covers are in the shadow of the text. */
  lemma SavedHere(code: word, img: Image, mem: Memory, a: Addr, h: set<Addr>)
    requires Proper(img.text) && img.text.Has(a) && SameText(mem, img)
    requires Saved(code, img.boot.mem, a, h)
    ensures Saved(code, mem, a, h) && mem[a] == img.boot.mem[a]
  {
    hide Bytes;
    forall k | 1 <= k < 8
      ensures Bytes(code)[k] == mem[Wrap(a + k)] || Wrap(a + k) in h
    {
      assert Wrap(a + k) == a + k;
    }
  }

  /** The word the debugger disassembles at `a` is good enough. */
  lemma CodeAtOk(img: Image, m: Machine, u: Machine, t: seq<Entry>, a: Addr, h: set<Addr>)
    requires Proper(img.text) && TableOk(t, img, h) && Mirrors(img, m, u, t, h)
    ensures Low(CodeAt(m.mem, t, a)) == u.mem[a] && Saved(CodeAt(m.mem, t, a), u.mem, a, h)
  {
    hide Bytes, Pack, Low, Behaved;
    if a in Addrs(t) {
      assert EntryOk(t, IndexOf(Addrs(t), a), img, h);
      SavedHere(First(t, a).code, img, u.mem, a, h);
    } else {
      BytesOfPeek(m.mem, a);
      forall k | 1 <= k < 8
        ensures Bytes(Peek(m.mem, a))[k] == u.mem[Wrap(a + k)] || Wrap(a + k) in h
      {
        if Wrap(a + k) in Addrs(t) {
          InTable(t, img, h, Wrap(a + k));
        }
      }
    }
  }

  lemma InTable(t: seq<Entry>, img: Image, h: set<Addr>, x: Addr)
    requires TableOk(t, img, h) && x in Addrs(t)
    ensures x in h && img.text.Has(x)
  {
    assert EntryOk(t, IndexOf(Addrs(t), x), img, h);
  }

  lemma SweepRefines(img: Image, m: Machine, u: Machine, t: seq<Entry>, h: set<Addr>, a: Addr, n: nat)
    requires Proper(img.text) && TableOk(t, img, h) && Mirrors(img, m, u, t, h)
    requires SurveyClear(u.mem, img.text, a, n, h)
    ensures Sweep(m.mem, t, img.text, a, n) == Survey(u.mem, img.text, a, n)
    decreases n
  {
    hide Low, Mirrors, TableOk, CodeAt, Translate, LengthOf, Reach, Peek, Saved, Inside;
    if n > 0 && img.text.Has(a) {
      CodeAtOk(img, m, u, t, a, h);
      SameLine(CodeAt(m.mem, t, a), u.mem, a, h);
      SweepRefines(img, m, u, t, h, Wrap(a + LengthOf(Peek(u.mem, a))), n - 1);
    }
  }

  lemma ReportRefines(img: Image, m: Machine, u: Machine, t: seq<Entry>, h: set<Addr>, o: Obs)
    requires Proper(img.text) && TableOk(t, img, h) && Mirrors(img, m, u, t, h) && o.addrs == Addrs(t)
    ensures Report(t, u.regs.rip) == See(o, u)
  {
    hide Bytes, Pack, Low, Decode, Good;
    if u.regs.rip in Addrs(t) {
      BehavedNow(u, h, img.text);
      GoodReach(u, h, img.text);
      CodeAtOk(img, m, u, t, u.regs.rip, h);
      SameLine(First(t, u.regs.rip).code, u.mem, u.regs.rip, h);
    }
  }

  // ----- running the process

  lemma StepKeeps(u: Machine, img: Image, h: set<Addr>)
    requires Behaved(u, h, img.text) && SameText(u.mem, img)
    ensures Step(u).Next? || Step(u).Exited?
    ensures Step(u).Next? ==> Behaved(Step(u).m, h, img.text) && SameText(Step(u).m.mem, img)
  {
    hide Step, Good;
    BehavedNow(u, h, img.text);
    BehavedNext(u, h, img.text);
    if Step(u).Next? {
      forall x: Addr | img.text.Shadows(x)
        ensures Step(u).m.mem[x] == img.boot.mem[x]
      {
        StepKeepsText(u, h, img.text, x);
      }
    }
  }

  lemma {:induction false} RunUntilKeeps(u: Machine, b: set<Addr>, fuel: nat, img: Image, h: set<Addr>)
    requires Behaved(u, h, img.text) && SameText(u.mem, img)
    requires RunUntil(u, b, fuel).Stopped?
    ensures var v := RunUntil(u, b, fuel).m;
            v.regs.rip in b && Behaved(v, h, img.text) && SameText(v.mem, img)
    decreases fuel
  {
    hide Step, Behaved, SameText;
    if u.regs.rip !in b {
      StepKeeps(u, img, h);
      RunUntilKeeps(Step(u).m, b, fuel - 1, img, h);
    }
  }

  function JustPast(m: Machine): Machine {
    m.(regs := m.regs.(rip := Wrap(m.regs.rip + 1)))
  }

  /** The patched process stops just past the trap byte where the observer stops it. */
  lemma {:induction false} ResumeRefines(u: Machine, b: set<Addr>, fuel: nat, img: Image, h: set<Addr>)
    requires Behaved(u, h, img.text) && SameText(u.mem, img)
    requires b <= h && forall x | x in b :: img.text.Has(x)
    ensures var w := RunUntil(u, b, fuel);
            Resume(Patched(u, b), fuel) == if w.Stopped? then Stopped(JustPast(Patched(w.m, b))) else w
    decreases fuel
  {
    hide Step, Behaved, SameText, Good;
    if fuel > 0 {
      if u.regs.rip in b {
        StepOnPatch(u, b);
      } else {
        BehavedNow(u, h, img.text);
        StepOffPatch(u, b, h, img.text);
        if Step(u).Next? {
          StepKeeps(u, img, h);
          ResumeRefines(Step(u).m, b, fuel - 1, img, h);
        }
      }
    }
  }

  lemma GoodOperand(u: Machine, h: set<Addr>, text: Text)
    requires Good(u, h, text) && Step(u).Next?
    ensures Ordinary(u)
    ensures ReadOf(u) > 0 ==> StoreOf(u) == [] && Clear(h, OperandOf(u), 8)
    ensures StoreOf(u) != [] ==> ReadOf(u) == 0 && text.Avoids(OperandOf(u))
  {
    hide DecodeAt, Effect, Peek, Poke, Write, Fetch, Bytes, AddrOf, WordOf, Wrap, Inside, Clear, Text.Avoids;
    var at := Access(DecodeAt(u).ins, u.regs);
    if at != [] {
      assert at[0] in at;
    }
  }

  /** Eight bytes outside the shadow of the text meet no word of a breakpoint. */
  lemma AwayFromText(text: Text, at: Addr, a: Addr, b: set<Addr>)
    requires Proper(text) && text.Avoids(at) && text.Has(a) && forall x | x in b :: text.Has(x)
    ensures forall i: Addr | Offset(i, at) < 8 :: i !in b && !(0 < Offset(i, a) < 8)
  {
    forall i: Addr | Offset(i, at) < 8
      ensures i !in b && !(0 < Offset(i, a) < 8)
    {
      assert !text.Shadows(i);
    }
  }

  lemma GoodIsUndisturbed(u: Machine, b: set<Addr>, h: set<Addr>, text: Text)
    requires Proper(text) && Good(u, h, text) && Step(u).Next?
    requires text.Has(u.regs.rip) && b <= h && forall x | x in b :: text.Has(x)
    ensures Ordinary(u) && Undisturbed(u, b)
  {
    hide Step, Good, DecodeAt, StoreOf, OperandOf, ReadOf, Proper, Text.Avoids, Text.Has;
    GoodOperand(u, h, text);
    if StoreOf(u) != [] {
      AwayFromText(text, OperandOf(u), u.regs.rip, b);
    }
  }

  /** Restore, single-step, put back: one instruction of the program, and the patches as before. */
  lemma StepOverRefines(u: Machine, b: set<Addr>, e: Entry, img: Image, h: set<Addr>)
    requires Proper(img.text) && Behaved(u, h, img.text) && SameText(u.mem, img)
    requires b <= h && forall x | x in b :: img.text.Has(x)
    requires u.regs.rip in b && e.addr == u.regs.rip && Low(e.code) == u.mem[u.regs.rip]
    ensures var w := Once(u);
            StepOver(Patched(u, b), e) == if w.Stopped? then Stopped(Patched(w.m, b)) else w
  {
    hide Step, Low, Behaved, DecodeAt;
    var a := u.regs.rip;
    BehavedNow(u, h, img.text);
    StepOffPatch(u, b - {a}, h, img.text);
    if Step(u).Next? {
      GoodIsUndisturbed(u, b, h, img.text);
      StepOverExact(u, b, e);
    } else {
      assert Patched(u, b).(mem := Patch(u.mem, b)[a := Low(e.code)]) == Patched(u, b - {a});
    }
  }

  lemma SingleRefines(u: Machine, b: set<Addr>, img: Image, h: set<Addr>)
    requires Behaved(u, h, img.text)
    requires b <= h && forall x | x in b :: img.text.Has(x)
    requires u.regs.rip !in b
    ensures var w := Once(u);
            Single(Patched(u, b)) == if w.Stopped? then Stopped(Patched(w.m, b)) else w
  {
    hide Step, Good, Behaved;
    BehavedNow(u, h, img.text);
    StepOffPatch(u, b, h, img.text);
  }

  lemma TableSet(t: seq<Entry>, img: Image, h: set<Addr>)
    requires TableOk(t, img, h)
    ensures AddrSet(Addrs(t)) <= h
    ensures forall x | x in AddrSet(Addrs(t)) :: img.text.Has(x)
  {
    hide Low;
    forall x | x in AddrSet(Addrs(t))
      ensures x in h && img.text.Has(x)
    {
      InTable(t, img, h, x);
    }
  }

  /** One instruction, on or off a breakpoint, the way `si` and `cont` take it. */
  lemma TakeOne(d: Dbg, u: Machine, h: set<Addr>)
    requires d.phase.Running? && Proper(d.phase.img.text) && TableOk(d.table, d.phase.img, h)
    requires Mirrors(d.phase.img, d.phase.m, u, d.table, h)
    ensures var m, rip := d.phase.m, u.regs.rip;
            var w := if rip in Addrs(d.table) then StepOver(m, First(d.table, rip)) else Single(m);
            w == (if Once(u).Stopped? then Stopped(Patched(Once(u).m, AddrSet(Addrs(d.table)))) else Gone)
            && (w.Stopped? ==> Mirrors(d.phase.img, w.m, Once(u).m, d.table, h))
  {
    hide Step, Low, Behaved, Patch, SameText;
    var img, b := d.phase.img, AddrSet(Addrs(d.table));
    TableSet(d.table, img, h);
    StepKeeps(u, img, h);
    if u.regs.rip in Addrs(d.table) {
      CodeAtOk(img, d.phase.m, u, d.table, u.regs.rip, h);
      StepOverRefines(u, b, First(d.table, u.regs.rip), img, h);
    } else {
      SingleRefines(u, b, img, h);
    }
  }

  // ----- one command

  /** Re-arming a fresh process skips no entry, because every entry lies in the text. */
  lemma {:induction false} RearmPatches(mem: Memory, t: seq<Entry>, lo: Addr)
    requires forall e | e in t :: e.addr >= lo
    ensures Rearm(mem, t, lo) == Patch(mem, AddrSet(Addrs(t)))
  {
    if t == [] {
      assert Addrs(t) == [];
      assert Patch(mem, {}) == mem;
    } else {
      var before, e := t[..|t| - 1], t[|t| - 1];
      assert t == before + [e];
      RearmPatches(mem, before, lo);
      AddrsOfAdd(before, e);
      assert Patch(mem, AddrSet(Addrs(before)))[e.addr := TRAP] == Patch(mem, AddrSet(Addrs(t)));
    }
  }

  lemma StartRefines(d: Dbg, o: Obs, h: set<Addr>)
    requires Coupled(d, o, h)
    ensures Coupled(DoStart(d), SeeStart(o), h)
    ensures d.log == o.log ==> DoStart(d).log == SeeStart(o).log
  {
    hide Low, Behaved, Patch, See, Report;
    if d.phase.Loaded? {
      var img := d.phase.img;
      forall e | e in d.table
        ensures e.addr >= img.text.lo
      {
        var j :| 0 <= j < |d.table| && d.table[j] == e;
        assert EntryOk(d.table, j, img, h);
      }
      RearmPatches(img.boot.mem, d.table, img.text.lo);
      ReportRefines(img, DoStart(d).phase.m, img.boot, d.table, h, o);
    }
  }

  lemma SiRefines(d: Dbg, o: Obs, h: set<Addr>)
    requires Coupled(d, o, h)
    ensures Coupled(DoSi(d), SeeSi(o), h)
    ensures d.log == o.log ==> DoSi(d).log == SeeSi(o).log
  {
    hide Low, Behaved, Patch, See, Report, TableOk, StepOver, Single, Once, SameText;
    if d.phase.Running? {
      var u := o.phase.m;
      TakeOne(d, u, h);
      if Once(u).Stopped? {
        ReportRefines(d.phase.img, DoSi(d).phase.m, Once(u).m, d.table, h, o);
      }
    }
  }

  lemma ContRefines(d: Dbg, o: Obs, fuel: nat, h: set<Addr>)
    requires Coupled(d, o, h)
    ensures DoCont(d, fuel).Some? <==> SeeCont(o, fuel).Some?
    ensures DoCont(d, fuel).Some? ==> Coupled(DoCont(d, fuel).value, SeeCont(o, fuel).value, h)
    ensures DoCont(d, fuel).Some? && d.log == o.log ==> DoCont(d, fuel).value.log == SeeCont(o, fuel).value.log
  {
    hide Low, Behaved, Patch, See, Report, TableOk, StepOver, Single, Once, SameText, Resume, RunUntil;
    if d.phase.Running? {
      var img, b := d.phase.img, AddrSet(o.addrs);
      var stay := d.ripSet || o.phase.m.regs.rip !in o.addrs;
      TakeOne(d, o.phase.m, h);
      if stay || Once(o.phase.m).Stopped? {
        var u := if stay then o.phase.m else Once(o.phase.m).m;
        TableSet(d.table, img, h);
        ResumeRefines(u, b, fuel, img, h);
        var w := RunUntil(u, b, fuel);
        if w.Stopped? {
          RunUntilKeeps(u, b, fuel, img, h);
          Rewound(w.m, d.table);
          ReportRefines(img, Patched(w.m, b), w.m, d.table, h, o);
        }
      }
    }
  }

  lemma Rewound(u: Machine, t: seq<Entry>)
    requires u.regs.rip in Addrs(t)
    ensures Rewind(JustPast(Patched(u, AddrSet(Addrs(t)))), t) == Patched(u, AddrSet(Addrs(t)))
    ensures Wrap(JustPast(Patched(u, AddrSet(Addrs(t)))).regs.rip - 1) == u.regs.rip
  {
  }

  lemma RunRefines(d: Dbg, o: Obs, fuel: nat, h: set<Addr>)
    requires Coupled(d, o, h)
    ensures DoRun(d, fuel).Some? <==> SeeRun(o, fuel).Some?
    ensures DoRun(d, fuel).Some? ==> Coupled(DoRun(d, fuel).value, SeeRun(o, fuel).value, h)
    ensures DoRun(d, fuel).Some? && d.log == o.log ==> DoRun(d, fuel).value.log == SeeRun(o, fuel).value.log
  {
    hide DoCont, SeeCont, DoStart, SeeStart, TableOk, Mirrors;
    if d.phase.Loaded? {
      StartRefines(d, o, h);
      ContRefines(DoStart(d), SeeStart(o), fuel, h);
    } else if d.phase.Running? {
      ContRefines(d.Says([AlreadyRunning]), o.Says([AlreadyRunning]), fuel, h);
    }
  }

  lemma SetRegRefines(d: Dbg, o: Obs, t: Option<Target>, v: word, h: set<Addr>)
    requires Coupled(d, o, h) && Admissible(o, SetReg(t, v), h)
    ensures Coupled(DoSetReg(d, t, v), SeeSetReg(o, t, v), h)
    ensures d.log == o.log ==> DoSetReg(d, t, v).log == SeeSetReg(o, t, v).log
  {
    hide Low, Behaved, Patch, TableOk, SameText, SetRegs;
  }

  /** Whatever it prints, `disasm` changes nothing else. */
  lemma DisasmRefines(d: Dbg, o: Obs, at: Option<Addr>, h: set<Addr>)
    requires Coupled(d, o, h)
    ensures Coupled(DoDisasm(d, at), SeeDisasm(o, at), h)
    ensures d.log == o.log && Legible(o, Disasm(at), h) ==> DoDisasm(d, at).log == SeeDisasm(o, at).log
  {
    hide Behaved, Patch, TableOk, SameText, Sweep, Survey, SurveyClear;
    if d.phase.Running? && at.Some? && Legible(o, Disasm(at), h) {
      SweepRefines(d.phase.img, d.phase.m, o.phase.m, d.table, h, at.value, N_DISASM_INS);
    }
  }

  // ----- setting and deleting breakpoints

  lemma BreakKeepsTable(t: seq<Entry>, m: Machine, u: Machine, img: Image, a: Addr, h: set<Addr>)
    requires Proper(img.text) && TableOk(t, img, h) && Mirrors(img, m, u, t, h)
    requires img.text.Has(a) && a in h
    ensures TableOk(t + [Entry(a, Peek(m.mem, a))], img, h)
  {
    hide Low, Bytes, Pack, Behaved;
    var e := Entry(a, Peek(m.mem, a));
    AddrsOfAdd(t, e);
    forall j | 0 <= j < |t| + 1
      ensures EntryOk(t + [e], j, img, h)
    {
      IndexOfAppend(Addrs(t), a, (t + [e])[j].addr);
      if j < |t| {
        assert EntryOk(t, j, img, h);
      } else {
        BytesOfPeek(m.mem, a);
        PeekedOk(t, m, u, img, a, h);
      }
    }
  }

  lemma PeekedOk(t: seq<Entry>, m: Machine, u: Machine, img: Image, a: Addr, h: set<Addr>)
    requires Proper(img.text) && TableOk(t, img, h) && Mirrors(img, m, u, t, h) && img.text.Has(a)
    ensures Saved(Peek(m.mem, a), img.boot.mem, a, h)
  {
    hide Low, Bytes, Pack, Behaved;
    BytesOfPeek(m.mem, a);
    forall k | 1 <= k < 8
      ensures Bytes(Peek(m.mem, a))[k] == img.boot.mem[Wrap(a + k)] || Wrap(a + k) in h
    {
      assert Wrap(a + k) == a + k;
      if Wrap(a + k) in Addrs(t) {
        InTable(t, img, h, Wrap(a + k));
      }
    }
  }

  lemma BreakRefines(d: Dbg, o: Obs, at: Option<Addr>, h: set<Addr>)
    requires Coupled(d, o, h) && Admissible(o, Break(at), h)
    ensures Coupled(DoBreak(d, at), SeeBreak(o, at), h)
    ensures d.log == o.log ==> DoBreak(d, at).log == SeeBreak(o, at).log
  {
    hide Low, Bytes, Pack, Behaved, TableOk, SameText;
    if d.phase.Running? && at.Some? && d.phase.img.text.Has(at.value) {
      var (m, u, a) := (d.phase.m, o.phase.m, at.value);
      var e := Entry(a, Peek(m.mem, a));
      BreakKeepsTable(d.table, m, u, d.phase.img, a, h);
      AddrsOfAdd(d.table, e);
      assert m.mem[a := TRAP] == Patch(u.mem, AddrSet(Addrs(d.table + [e])));
    }
  }

  lemma RemoveMember(s: seq<Addr>, i: nat, a: Addr)
    requires i < |s|
    ensures a in Remove(s, i) <==> a in s && (a != s[i] || a in s[..i] || a in s[i + 1..])
  {
    assert s == s[..i] + [s[i]] + s[i + 1..];
  }

  lemma DeleteKeepsTable(t: seq<Entry>, i: nat, img: Image, h: set<Addr>)
    requires i < |t| && TableOk(t, img, h) && Harmless(Addrs(t), i, img.boot.mem)
    ensures TableOk(Remove(t, i), img, h)
  {
    hide Low, Bytes, IndexOf;
    var s, r := Addrs(t), Remove(t, i);
    AddrsOfRemove(t, i);
    forall j | 0 <= j < |r|
      ensures EntryOk(r, j, img, h)
    {
      var k := if j < i then j else j + 1;
      assert r[j] == t[k] && EntryOk(t, k, img, h);
      var a := t[k].addr;
      if a != s[i] || IndexOf(s, a) < i {
        IndexOfRemove(s, i, a);
      } else {
        assert a == s[k];
        assert forall q :: 0 <= q < i ==> s[..i][q] == s[q];
        assert k > i && a in s[i + 1..] by {
          assert s[i + 1..][k - i - 1] == a;
        }
        assert Orphans(s, i);
      }
    }
  }

  lemma DeletePatches(t: seq<Entry>, i: nat, u: Machine, img: Image, h: set<Addr>)
    requires i < |t| && TableOk(t, img, h) && Harmless(Addrs(t), i, img.boot.mem)
    requires u.mem[t[i].addr] == img.boot.mem[t[i].addr]
    ensures Patch(u.mem, AddrSet(Addrs(t)))[t[i].addr := Low(t[i].code)] == Patch(u.mem, AddrSet(Addrs(Remove(t, i))))
  {
    hide Low, Bytes;
    var s, a := Addrs(t), t[i].addr;
    AddrsOfRemove(t, i);
    assert EntryOk(t, i, img, h);
    var b := AddrSet(Remove(s, i));
    forall x | x != a
      ensures x in b <==> x in AddrSet(s)
    {
      RemoveMember(s, i, x);
    }
    RemoveMember(s, i, a);
    if IndexOf(s, a) < i {
      assert s[..i][IndexOf(s, a)] == a;
    }
  }

  lemma DeleteRefines(d: Dbg, o: Obs, index: Option<int>, h: set<Addr>)
    requires Coupled(d, o, h) && Admissible(o, Delete(index), h)
    ensures Coupled(DoDelete(d, index), SeeDelete(o, index), h)
    ensures d.log == o.log ==> DoDelete(d, index).log == SeeDelete(o, index).log
  {
    hide Low, Bytes, Behaved, IndexOf, Saved;
    if d.phase.Running? && index.Some? && 0 <= index.value < |d.table| {
      var img, i := d.phase.img, index.value;
      InTable(d.table, img, h, d.table[i].addr);
      DeleteKeepsTable(d.table, i, img, h);
      DeletePatches(d.table, i, o.phase.m, img, h);
      AddrsOfRemove(d.table, i);
    }
  }

  // ----- every command, and every sequence of commands

  lemma CommandRefines(d: Dbg, o: Obs, c: Command, fuel: nat, h: set<Addr>)
    requires Coupled(d, o, h) && Admissible(o, c, h)
    ensures Exec(d, c, fuel).Some? <==> SeeCommand(o, c, fuel).Some?
    ensures Exec(d, c, fuel).Some? ==> Coupled(Exec(d, c, fuel).value, SeeCommand(o, c, fuel).value, h)
    ensures Exec(d, c, fuel).Some? && d.log == o.log && Legible(o, c, h) ==>
              Exec(d, c, fuel).value.log == SeeCommand(o, c, fuel).value.log
  {
    match c
    case Load(_) => LoadRefines(d, o, c.file, h);
    case Start => StartRefines(d, o, h);
    case Cont => ContRefines(d, o, fuel, h);
    case Run => RunRefines(d, o, fuel, h);
    case Si => SiRefines(d, o, h);
    case Break(at) => BreakRefines(d, o, at, h);
    case Delete(index) => DeleteRefines(d, o, index, h);
    case SetReg(t, v) => SetRegRefines(d, o, t, v, h);
    case Disasm(at) => DisasmRefines(d, o, at, h);
    case Show =>
  }

  lemma LoadRefines(d: Dbg, o: Obs, file: Option<Elf>, h: set<Addr>)
    requires Coupled(d, o, h) && Admissible(o, Command.Load(file), h)
    ensures Coupled(DoLoad(d, file), SeeCommand(o, Command.Load(file), 0).value, h)
    ensures d.log == o.log ==> DoLoad(d, file).log == SeeCommand(o, Command.Load(file), 0).value.log
  {
  }

  /** Whole sessions: the debugger returns from exactly the commands the observer returns from,
      with the process at the same place, and prints the same when everything it shows is legible. */
  lemma {:induction false} SessionRefines(d: Dbg, o: Obs, cs: seq<Command>, fuel: nat, h: set<Addr>)
    requires Coupled(d, o, h) && AllAdmissible(o, cs, fuel, h)
    ensures ExecAll(d, cs, fuel).Some? <==> SeeAll(o, cs, fuel).Some?
    ensures ExecAll(d, cs, fuel).Some? ==> Coupled(ExecAll(d, cs, fuel).value, SeeAll(o, cs, fuel).value, h)
    ensures ExecAll(d, cs, fuel).Some? && d.log == o.log && AllLegible(o, cs, fuel, h) ==>
              ExecAll(d, cs, fuel).value.log == SeeAll(o, cs, fuel).value.log
    decreases |cs|
  {
    hide Exec, SeeCommand, Coupled, Admissible, Legible;
    if cs != [] {
      CommandRefines(d, o, cs[0], fuel, h);
      if Exec(d, cs[0], fuel).Some? {
        SessionRefines(Exec(d, cs[0], fuel).value, SeeCommand(o, cs[0], fuel).value, cs[1..], fuel, h);
      }
    }
  }
}
