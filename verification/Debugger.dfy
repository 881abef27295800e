/** The debugger as an object: its fields, and its commands as sequences of ptrace requests. */
module Debugger {
  import opened Words
  import opened Tracee
  import opened BreakpointTable
  import opened Commands

  datatype Status = StillRunning | HasExited | HasStopped

  /** A traced process, as the kernel presents it. */
  class Process {
    var m: Machine

    /** `execvp` of the program: the process stops at its first instruction. */
    constructor (boot: Machine)
      ensures m == boot
    {
      m := boot;
    }

    method PeekText(addr: Addr) returns (w: word)
      ensures w == Peek(m.mem, addr)
    {
      w := Peek(m.mem, addr);
    }

    method PokeText(addr: Addr, w: word)
      modifies this
      ensures m == old(m).(mem := Poke(old(m).mem, addr, w))
    {
      m := m.(mem := Poke(m.mem, addr, w));
    }

    method SetRegisters(regs: Regs)
      modifies this
      ensures m == old(m).(regs := regs)
    {
      m := m.(regs := regs);
    }

    method SingleStep() returns (status: Status)
      modifies this
      ensures status != StillRunning
      ensures Single(old(m)) == match status { case HasStopped => Stopped(m) case _ => Gone }
    {
      hide Step;
      status := HasStopped;
      match Step(m) {
        case Next(after) => m := after;
        case Trapped(after) => m := after;
        case Exited => status := HasExited;
        case Fault =>
      }
    }

    /** Run until the process stops or exits; `StillRunning` when `fuel` instructions were not
        enough to see either. */
    method Continue(fuel: nat) returns (status: Status)
      modifies this
      ensures Resume(old(m), fuel) ==
              match status { case StillRunning => Blocked case HasExited => Gone case HasStopped => Stopped(m) }
    {
      hide Step;
      var left: nat := fuel;
      while left > 0
        invariant left <= fuel && Resume(m, left) == Resume(old(m), fuel)
      {
        match Step(m) {
          case Next(after) => m := after;
          case Trapped(after) => m := after; return HasStopped;
          case Exited => return HasExited;
          case Fault => return HasStopped;
        }
        left := left - 1;
      }
      return StillRunning;
    }
  }

  datatype State = LOADED | NOLOAD | RUNNING
  datatype StopKind = FOR_CONT | FOR_SINGLESTEP | FOR_START

  class Debugger {
    var state: State
    var lastCmdIsSetRip: bool
    const bptab: Table
    var entryPoint: Addr
    var textBegin: Addr
    var textEnd: Addr
    var program: Option<Machine>
    var pid: Process?
    var log: seq<Message>

    ghost predicate Valid()
      reads this
    {
      && (state == RUNNING <==> pid != null)
      && (state != NOLOAD ==> program.Some?)
      && (state == NOLOAD ==> Text(textBegin, textEnd) == NO_TEXT)
    }

    ghost function LoadedImage(): Image
      reads this
      requires program.Some?
    {
      Image(entryPoint, Text(textBegin, textEnd), program.value)
    }

    ghost function View(): Dbg
      reads this, bptab, pid
      requires Valid()
    {
      var phase := match state
        case NOLOAD => NoLoad
        case LOADED => Loaded(LoadedImage())
        case RUNNING => Running(LoadedImage(), pid.m);
      Dbg(phase, lastCmdIsSetRip, bptab.data, log)
    }

    constructor ()
      ensures Valid() && View() == INITIAL && fresh(bptab)
    {
      state := NOLOAD;
      lastCmdIsSetRip := false;
      bptab := new Table();
      entryPoint, textBegin, textEnd := SPACE - 1, SPACE - 1, SPACE - 1;
      program := None;
      pid := null;
      log := [];
    }

    method Say(ms: seq<Message>)
      modifies this`log
      ensures log == old(log) + ms
    {
      log := log + ms;
    }

    method Release()
      modifies this`pid, this`lastCmdIsSetRip, this`state
      ensures pid == null && !lastCmdIsSetRip && state == LOADED
    {
      pid := null;
      lastCmdIsSetRip := false;
      state := LOADED;
    }

    method WaitThenCheckExit(status: Status)
      requires Valid() && state == RUNNING
      modifies this
      ensures Valid() && (pid == null || pid == old(pid))
      ensures View() == if status == HasExited then Ended(old(View())) else old(View())
    {
      if status == HasExited {
        Say([Terminated]);
        Release();
      }
    }

    /** Step over the breakpoint at `addr`, if there is one. */
    method CheckThenRestoreSiReput(addr: Addr)
      requires Valid() && state == RUNNING
      modifies this, pid
      ensures Valid() && (pid == null || pid == old(pid))
      ensures addr !in Addrs(bptab.data) ==> View() == old(View())
      ensures addr in Addrs(bptab.data) ==>
                var w := StepOver(old(pid.m), First(bptab.data, addr));
                View() == if w.Stopped? then old(View()).(phase := Running(old(View()).phase.img, w.m)) else Ended(old(View()))
    {
      hide Step, Single, Resume, WithLow, WithTrap, Pack, Bytes, Low;
      hide Peek, Poke, Write, Fetch, Translate, IndexOf, NO_TEXT;
      var included := bptab.IncludeAddr(addr);
      if !included {
        return;
      }
      var e := bptab.Lookup(addr);
      var curCode := pid.PeekText(addr);
      ghost var m0 := pid.m;
      PokeLow(m0.mem, addr, e.code);
      pid.PokeText(addr, WithLow(curCode, e.code));
      var status := pid.SingleStep();
      WaitThenCheckExit(status);
      if state != RUNNING {
        return;
      }
      PokeBack(pid.m.mem, m0.mem, addr);
      pid.PokeText(addr, curCode);
    }

    /** Report whether the process stands on a breakpoint, or, after `cont`, just past one, and
        then move it back. */
    method CheckHitBreakPointOrNot(kind: StopKind)
      requires pid != null
      modifies this`log, pid
      ensures var r := old(pid.m).regs.rip;
              var a := if kind == FOR_CONT then Wrap(r - 1) else r;
              log == old(log) + Report(bptab.data, a)
      ensures pid.m == if kind == FOR_CONT then Rewind(old(pid.m), bptab.data) else old(pid.m)
      ensures kind != FOR_CONT || Wrap(old(pid.m).regs.rip - 1) !in Addrs(bptab.data) ==> pid.m == old(pid.m)
    {
      hide Step, Single, Resume, WithLow, WithTrap, Pack, Bytes, Low, Peek, Poke, Write, Fetch, Translate, IndexOf;
      var regs := pid.m.regs;
      var addr := if kind == FOR_CONT then Wrap(regs.rip - 1) else regs.rip;
      var included := bptab.IncludeAddr(addr);
      if !included {
        Say([HitNothing]);
        return;
      }
      if kind == FOR_CONT {
        regs := regs.(rip := addr);
        pid.SetRegisters(regs);
      }
      var e := bptab.Lookup(addr);
      Say([Hit, Translate(addr, e.code)]);
    }

    method ReputAllBreakpointsFrom(beginAddr: Addr)
      requires pid != null
      modifies pid
      ensures pid.m == old(pid.m).(mem := Rearm(old(pid.m).mem, bptab.data, beginAddr))
    {
      hide Step, Single, Resume, WithLow, WithTrap, Pack, Bytes, Low, Peek, Poke, Write, Fetch, Translate, IndexOf;
      var i := 0;
      var n := bptab.Size();
      while i < n
        invariant 0 <= i <= n == |bptab.data|
        invariant pid.m == old(pid.m).(mem := Rearm(old(pid.m).mem, bptab.data[..i], beginAddr))
      {
        var e := bptab.data[i];
        assert bptab.data[..i + 1][..i] == bptab.data[..i];
        if e.addr >= beginAddr {
          var code := pid.PeekText(e.addr);
          PokeTrap(pid.m.mem, e.addr);
          pid.PokeText(e.addr, WithTrap(code));
        }
        i := i + 1;
      }
      assert bptab.data[..|bptab.data|] == bptab.data;
    }

    method Load(file: Option<Elf>)
      requires Valid()
      modifies this
      ensures Valid() && pid == old(pid)
      ensures View() == DoLoad(old(View()), file)
    {
      if state == LOADED || state == RUNNING {
        Say([Refused(NeedNoLoad)]);
        return;
      }
      if file.None? {
        Say([Refused(BadArgument)]);
        return;
      }
      program, entryPoint := Some(file.value.boot), file.value.entry;
      if file.value.section.Some? {
        textBegin, textEnd := file.value.section.value.lo, file.value.section.value.hi;
      }
      Say([ProgramLoaded(entryPoint)]);
      state := LOADED;
      lastCmdIsSetRip := false;
    }

    method Start()
      requires Valid()
      modifies this
      ensures Valid() && (pid == old(pid) || fresh(pid))
      ensures View() == DoStart(old(View()))
    {
      hide Step, Single, Resume, WithLow, WithTrap, Pack, Bytes, Low, Peek, Poke, Write, Fetch, Translate, IndexOf;
      if state != LOADED {
        Say([Refused(NeedLoaded)]);
        return;
      }
      pid := new Process(program.value);
      ReputAllBreakpointsFrom(textBegin);
      CheckHitBreakPointOrNot(FOR_START);
      state := RUNNING;
      lastCmdIsSetRip := false;
    }

    method StepIn()
      requires Valid()
      modifies this, pid
      ensures Valid() && (pid == null || pid == old(pid))
      ensures View() == DoSi(old(View()))
    {
      hide Step, Single, Resume, WithLow, WithTrap, Pack, Bytes, Low, Peek, Poke;
      hide Write, Fetch, Translate, IndexOf, First, Addrs, Wrap, StepOver, Report;
      if state != RUNNING {
        Say([Refused(NeedRunning)]);
        return;
      }
      var rip := pid.m.regs.rip;
      var included := bptab.IncludeAddr(rip);
      if included {
        CheckThenRestoreSiReput(rip);
        if state != RUNNING {
          return;
        }
      } else {
        var status := pid.SingleStep();
        WaitThenCheckExit(status);
        if state != RUNNING {
          return;
        }
      }
      CheckHitBreakPointOrNot(FOR_SINGLESTEP);
      lastCmdIsSetRip := false;
    }

    /** `returned` is false when the process was still running after `fuel` instructions; the
        debugger is then still waiting. */
    method Cont(fuel: nat) returns (returned: bool)
      requires Valid()
      modifies this, pid
      ensures Valid() && (pid == null || pid == old(pid))
      ensures returned <==> DoCont(old(View()), fuel).Some?
      ensures returned ==> View() == DoCont(old(View()), fuel).value
    {
      hide Step, Single, Resume, WithLow, WithTrap, Pack, Bytes, Low, Peek, Poke, Write;
      hide Fetch, Translate, IndexOf, First, Addrs, Wrap, StepOver, Report, Rewind;
      if state != RUNNING {
        Say([Refused(NeedRunning)]);
        return true;
      }
      var rip := pid.m.regs.rip;
      var included := bptab.IncludeAddr(rip);
      if !lastCmdIsSetRip && included {
        CheckThenRestoreSiReput(rip);
        if state != RUNNING {
          return true;
        }
      }
      var status := pid.Continue(fuel);
      if status == StillRunning {
        return false;
      }
      WaitThenCheckExit(status);
      if state != RUNNING {
        return true;
      }
      CheckHitBreakPointOrNot(FOR_CONT);
      lastCmdIsSetRip := false;
      return true;
    }

    method Run(fuel: nat) returns (returned: bool)
      requires Valid()
      modifies this, pid
      ensures Valid() && (pid == null || pid == old(pid) || fresh(pid))
      ensures returned <==> DoRun(old(View()), fuel).Some?
      ensures returned ==> View() == DoRun(old(View()), fuel).value
    {
      if state != LOADED && state != RUNNING {
        Say([Refused(NeedProgram)]);
        return true;
      }
      if state == LOADED {
        Start();
        returned := Cont(fuel);
      } else {
        Say([AlreadyRunning]);
        returned := Cont(fuel);
      }
      lastCmdIsSetRip := false;
    }

    method SetBreakPoint(at: Option<Addr>)
      requires Valid()
      modifies this, pid, bptab
      ensures Valid() && pid == old(pid)
      ensures View() == DoBreak(old(View()), at)
      ensures |bptab.data| > |old(bptab.data)| <==>
                old(state) == RUNNING && at.Some? && old(textBegin) <= at.value && at.value <= old(textEnd)
    {
      hide Step, Single, Resume, WithLow, WithTrap, Pack, Bytes, Low, Peek, Poke, Write, Fetch, Translate, IndexOf;
      if state != RUNNING {
        Say([Refused(NeedRunning)]);
        return;
      }
      if at.None? {
        Say([Refused(BadArgument)]);
        return;
      }
      ghost var d0 := View();
      var tarAddr: Addr := at.value;
      if tarAddr < textBegin || tarAddr > textEnd {
        Say([Refused(OutOfText)]);
        return;
      }
      var included := bptab.IncludeAddr(tarAddr);
      if included {
        var index := bptab.IndexOfAddr(tarAddr);
        Say([AlreadyBroken(index)]);
      }
      var code := pid.PeekText(tarAddr);
      PokeTrap(pid.m.mem, tarAddr);
      pid.PokeText(tarAddr, WithTrap(code));
      bptab.Add(tarAddr, code);
      assert View().phase == DoBreak(d0, at).phase;
    }

    method DeleteBreakPoint(index: Option<int>)
      requires Valid()
      modifies this, pid, bptab
      ensures Valid() && pid == old(pid)
      ensures View() == DoDelete(old(View()), index)
    {
      hide Step, Single, Resume, WithLow, WithTrap, Pack, Bytes, Low, Peek, Poke, Write, Fetch, Translate, IndexOf;
      if state != RUNNING {
        Say([Refused(NeedRunning)]);
        return;
      }
      if index.None? {
        Say([Refused(BadArgument)]);
        return;
      }
      ghost var d0 := View();
      var tarIdx := index.value;
      var included := bptab.IncludeIndex(tarIdx);
      if !included {
        Say([NoSuchBreakpoint(tarIdx)]);
        return;
      }
      var e := bptab.data[tarIdx];
      var curCode := pid.PeekText(e.addr);
      PokeLow(pid.m.mem, e.addr, e.code);
      pid.PokeText(e.addr, WithLow(curCode, e.code));
      bptab.Del(tarIdx);
      assert View().phase == DoDelete(d0, index).phase;
      Say([Deleted(tarIdx, e.addr)]);
    }

    /** Reads a register when `inputVal` is 0 and writes it otherwise; -1 for an unknown name. */
    method RegHandler(tarReg: Option<Target>, inputVal: word, regs: Regs) returns (ret: word, regs': Regs)
      ensures tarReg.None? ==> ret == MINUS_ONE && regs' == regs
      ensures tarReg.Some? ==> (ret == MINUS_ONE <==> ReadsAsError(regs, tarReg.value, inputVal))
      ensures tarReg.Some? ==> regs' == SetRegs(regs, tarReg.value, inputVal)
    {
      if tarReg.None? {
        return MINUS_ONE, regs;
      }
      if inputVal == 0 {
        return Get(regs, tarReg.value), regs;
      }
      return 0, Put(regs, tarReg.value, inputVal);
    }

    method SetReg(tarReg: Option<Target>, inputVal: word)
      requires Valid()
      modifies this, pid
      ensures Valid() && pid == old(pid)
      ensures View() == DoSetReg(old(View()), tarReg, inputVal)
    {
      if state != RUNNING {
        Say([Refused(NeedRunning)]);
        return;
      }
      var ret, regs := RegHandler(tarReg, inputVal, pid.m.regs);
      if ret == MINUS_ONE {
        if tarReg.None? {
          Say([Refused(BadArgument)]);
        }
        return;
      }
      pid.SetRegisters(regs);
      if tarReg == Some(Rip) {
        lastCmdIsSetRip := true;
      }
    }

    method Disasm(at: Option<Addr>)
      requires Valid()
      modifies this`log
      ensures Valid()
      ensures View() == DoDisasm(old(View()), at)
    {
      hide Step, Single, Resume, Peek, Translate, LengthOf, Sweep, Wrap, First, Addrs, DoDisasm;
      ghost var d0 := View();
      DisasmRefuses(d0, at);
      if state != RUNNING {
        Say([Refused(NeedRunning)]);
        return;
      }
      if at.None? {
        Say([Refused(BadArgument)]);
        return;
      }
      var tarAddr: Addr := at.value;
      if tarAddr < textBegin || tarAddr > textEnd {
        Say([Refused(OutOfText)]);
        return;
      }
      var i := 0;
      ghost var (mem, t, text) := (pid.m.mem, bptab.data, Text(textBegin, textEnd));
      while i < N_DISASM_INS && textBegin <= tarAddr <= textEnd
        invariant 0 <= i <= N_DISASM_INS && pid.m.mem == mem && bptab.data == t
        invariant log + Sweep(mem, t, text, tarAddr, N_DISASM_INS - i)
               == d0.log + Sweep(mem, t, text, at.value, N_DISASM_INS)
      {
        var code;
        var included := bptab.IncludeAddr(tarAddr);
        if included {
          var e := bptab.Lookup(tarAddr);
          code := e.code;
        } else {
          code := pid.PeekText(tarAddr);
        }
        SweepNext(mem, t, text, tarAddr, N_DISASM_INS - i, log);
        Say([Translate(tarAddr, code)]);
        tarAddr := Wrap(tarAddr + LengthOf(code));
        i := i + 1;
      }
      SweepDone(mem, t, text, tarAddr, N_DISASM_INS - i, log);
      DisasmShows(d0, at);
    }
  }

  lemma DisasmRefuses(d: Dbg, at: Option<Addr>)
    ensures !d.phase.Running? ==> DoDisasm(d, at) == d.Says([Refused(NeedRunning)])
    ensures d.phase.Running? && at.None? ==> DoDisasm(d, at) == d.Says([Refused(BadArgument)])
    ensures d.phase.Running? && at.Some? && !d.phase.img.text.Has(at.value) ==>
              DoDisasm(d, at) == d.Says([Refused(OutOfText)])
  {
  }

  lemma DisasmShows(d: Dbg, at: Option<Addr>)
    requires d.phase.Running? && at.Some? && d.phase.img.text.Has(at.value)
    ensures DoDisasm(d, at) == d.Says(Sweep(d.phase.m.mem, d.table, d.phase.img.text, at.value, N_DISASM_INS))
  {
  }

  lemma SweepNext(mem: Memory, t: seq<Entry>, text: Text, a: Addr, n: nat, shown: seq<Message>)
    requires n > 0 && text.Has(a)
    ensures var code := CodeAt(mem, t, a);
            shown + Sweep(mem, t, text, a, n)
            == (shown + [Translate(a, code)]) + Sweep(mem, t, text, Wrap(a + LengthOf(code)), n - 1)
  {
    hide Translate, LengthOf, CodeAt;
    var code := CodeAt(mem, t, a);
    var rest := Sweep(mem, t, text, Wrap(a + LengthOf(code)), n - 1);
    assert shown + ([Translate(a, code)] + rest) == (shown + [Translate(a, code)]) + rest;
  }

  lemma SweepDone(mem: Memory, t: seq<Entry>, text: Text, a: Addr, n: nat, shown: seq<Message>)
    requires n == 0 || !text.Has(a)
    ensures shown + Sweep(mem, t, text, a, n) == shown
  {
    assert Sweep(mem, t, text, a, n) == [];
  }
}
