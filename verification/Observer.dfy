/** The reference the debugger is measured against: an observer that never touches the program.

    It watches the unpatched process, knows only a list of addresses, and stops the process by
    looking at its program counter. It disassembles the program as it was loaded. */
module Observer {
  import opened Words
  import opened Tracee
  import opened BreakpointTable
  import opened Commands

  datatype Obs = Obs(phase: Phase, ripSet: bool, addrs: seq<Addr>, log: seq<Message>)
  {
    function Says(ms: seq<Message>): Obs { this.(log := log + ms) }
    function At(m: Machine): Obs
      requires phase.Running?
    {
      this.(phase := Running(phase.img, m), ripSet := false)
    }
  }

  const ASLEEP: Obs := Obs(NoLoad, false, [], [])

  /** Let the process go until its program counter is in `b`, possibly at once. */
  function RunUntil(m: Machine, b: set<Addr>, fuel: nat): Wait
    decreases fuel
  {
    if fuel == 0 then Blocked
    else if m.regs.rip in b then Stopped(m)
    else
      match Step(m)
      case Next(after) => RunUntil(after, b, fuel - 1)
      case _ => Gone
  }

  function Once(m: Machine): Wait {
    match Step(m)
    case Next(after) => Stopped(after)
    case _ => Gone
  }

  function See(o: Obs, m: Machine): seq<Message> {
    if m.regs.rip in o.addrs then [Hit, Translate(m.regs.rip, Peek(m.mem, m.regs.rip))] else [HitNothing]
  }

  function Over(o: Obs): Obs
    requires o.phase.Running?
  {
    o.(phase := Loaded(o.phase.img), ripSet := false).Says([Terminated])
  }

  function Survey(mem: Memory, text: Text, a: Addr, n: nat): seq<Message>
    decreases n
  {
    if n == 0 || !text.Has(a) then []
    else [Translate(a, Peek(mem, a))] + Survey(mem, text, Wrap(a + LengthOf(Peek(mem, a))), n - 1)
  }

  function SeeStart(o: Obs): Obs {
    if !o.phase.Loaded? then o.Says([Refused(NeedLoaded)])
    else
      var m := o.phase.img.boot;
      o.(phase := Running(o.phase.img, m), ripSet := false).Says(See(o, m))
  }

  function SeeSi(o: Obs): Obs {
    if !o.phase.Running? then o.Says([Refused(NeedRunning)])
    else
      var w := Once(o.phase.m);
      if w.Stopped? then o.At(w.m).Says(See(o, w.m)) else Over(o)
  }

  /** From a breakpoint take one step first, unless the user just put the process there. */
  function SeeCont(o: Obs, fuel: nat): Option<Obs> {
    if !o.phase.Running? then Some(o.Says([Refused(NeedRunning)]))
    else
      var m := o.phase.m;
      var off := if !o.ripSet && m.regs.rip in o.addrs then Once(m) else Stopped(m);
      if !off.Stopped? then Some(Over(o))
      else
        var w := RunUntil(off.m, AddrSet(o.addrs), fuel);
        match w
        case Blocked => None
        case Gone => Some(Over(o))
        case Stopped(s) => Some(o.At(s).Says(See(o, s)))
  }

  function SeeRun(o: Obs, fuel: nat): Option<Obs> {
    if o.phase.NoLoad? then Some(o.Says([Refused(NeedProgram)]))
    else
      var r := SeeCont(if o.phase.Loaded? then SeeStart(o) else o.Says([AlreadyRunning]), fuel);
      if r.None? then None else Some(r.value.(ripSet := false))
  }

  function SeeBreak(o: Obs, at: Option<Addr>): Obs {
    if !o.phase.Running? then o.Says([Refused(NeedRunning)])
    else if at.None? then o.Says([Refused(BadArgument)])
    else if !o.phase.img.text.Has(at.value) then o.Says([Refused(OutOfText)])
    else
      var warning := if at.value in o.addrs then [AlreadyBroken(IndexOf(o.addrs, at.value))] else [];
      o.(addrs := o.addrs + [at.value]).Says(warning)
  }

  function SeeDelete(o: Obs, index: Option<int>): Obs {
    if !o.phase.Running? then o.Says([Refused(NeedRunning)])
    else if index.None? then o.Says([Refused(BadArgument)])
    else if !(0 <= index.value < |o.addrs|) then o.Says([NoSuchBreakpoint(index.value)])
    else
      o.(addrs := Remove(o.addrs, index.value)).Says([Deleted(index.value, o.addrs[index.value])])
  }

  function SeeSetReg(o: Obs, t: Option<Target>, v: word): Obs {
    if !o.phase.Running? then o.Says([Refused(NeedRunning)])
    else if t.None? then o.Says([Refused(BadArgument)])
    else if ReadsAsError(o.phase.m.regs, t.value, v) then o
    else
      o.(phase := Running(o.phase.img, o.phase.m.(regs := SetRegs(o.phase.m.regs, t.value, v))),
         ripSet := o.ripSet || t.value.Rip?)
  }

  function SeeDisasm(o: Obs, at: Option<Addr>): Obs {
    if !o.phase.Running? then o.Says([Refused(NeedRunning)])
    else if at.None? then o.Says([Refused(BadArgument)])
    else if !o.phase.img.text.Has(at.value) then o.Says([Refused(OutOfText)])
    else o.Says(Survey(o.phase.m.mem, o.phase.img.text, at.value, N_DISASM_INS))
  }

  function SeeCommand(o: Obs, c: Command, fuel: nat): Option<Obs> {
    match c
    case Load(file) =>
      Some(if !o.phase.NoLoad? then o.Says([Refused(NeedNoLoad)])
           else if file.None? then o.Says([Refused(BadArgument)])
           else o.(phase := Loaded(ImageOf(file.value)), ripSet := false).Says([ProgramLoaded(file.value.entry)]))
    case Start => Some(SeeStart(o))
    case Cont => SeeCont(o, fuel)
    case Run => SeeRun(o, fuel)
    case Si => Some(SeeSi(o))
    case Break(at) => Some(SeeBreak(o, at))
    case Delete(index) => Some(SeeDelete(o, index))
    case SetReg(t, v) => Some(SeeSetReg(o, t, v))
    case Disasm(at) => Some(SeeDisasm(o, at))
    case Show => Some(o)
  }

  function SeeAll(o: Obs, cs: seq<Command>, fuel: nat): Option<Obs>
    decreases |cs|
  {
    if cs == [] then Some(o)
    else
      var r := SeeCommand(o, cs[0], fuel);
      if r.None? then None else SeeAll(r.value, cs[1..], fuel)
  }
}
