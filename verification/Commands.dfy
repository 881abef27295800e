/** What each debugger command does to the debugger and to the process, byte by byte.

    The process may run for ever, and then `cont` never returns. `fuel` bounds how many
    instructions the process executes before the debugger gives up waiting: a command is
    `None` when the process is still running after that many. Statements about commands hold
    for every amount of fuel, that is, for every command that returns. */
module Commands {
  import opened Words
  import opened Tracee
  import opened BreakpointTable

  datatype Option<+T> = None | Some(value: T)

  /** What the ELF file says: its entry point, its .text section if it has one, and the process
      the kernel makes of it. */
  datatype Elf = Elf(entry: Addr, section: Option<Text>, boot: Machine)

  datatype Image = Image(entry: Addr, text: Text, boot: Machine)

  /** A file without a .text section leaves the range at the initial -1. */
  const NO_TEXT: Text := Text(SPACE - 1, SPACE - 1)

  function ImageOf(elf: Elf): Image {
    Image(elf.entry, if elf.section.Some? then elf.section.value else NO_TEXT, elf.boot)
  }

  datatype Target = Gp(r: Reg) | Rip | Flags

  /** The commands that act on the debugger or the process; a missing argument, an unreadable
      file or an unknown register name is `None`. `Show` is any command that only displays. */
  datatype Command =
    | Load(file: Option<Elf>)
    | Start
    | Cont
    | Run
    | Si
    | Break(at: Option<Addr>)
    | Delete(index: Option<int>)
    | SetReg(target: Option<Target>, value: word)
    | Disasm(at: Option<Addr>)
    | Show

  datatype Why = NeedNoLoad | NeedLoaded | NeedRunning | NeedProgram | BadArgument | OutOfText

  datatype Message =
    | Refused(why: Why)
    | ProgramLoaded(entry: Addr)
    | AlreadyRunning
    | AlreadyBroken(index: int)
    | NoSuchBreakpoint(index: int)
    | Deleted(index: int, addr: Addr)
    | HitNothing
    | Hit
    | Line(addr: Addr, code: seq<byte>, ins: Instr)
    | NoLine
    | Terminated

  datatype Phase = NoLoad | Loaded(img: Image) | Running(img: Image, m: Machine)

  /** The debugger: its state with the process it controls, whether the last command set `rip`,
      the breakpoint table, and everything it has printed. */
  datatype Dbg = Dbg(phase: Phase, ripSet: bool, table: seq<Entry>, log: seq<Message>)
  {
    function Says(ms: seq<Message>): Dbg { this.(log := log + ms) }
  }

  const INITIAL: Dbg := Dbg(NoLoad, false, [], [])

  // ----- the process under ptrace

  datatype Wait = Blocked | Gone | Stopped(m: Machine)

  /** PTRACE_SINGLESTEP and the wait that follows. A fault stops the process where it is. */
  function Single(m: Machine): Wait {
    match Step(m)
    case Next(after) => Stopped(after)
    case Trapped(after) => Stopped(after)
    case Exited => Gone
    case Fault => Stopped(m)
  }

  /** PTRACE_CONT and the wait that follows. */
  function Resume(m: Machine, fuel: nat): Wait
    decreases fuel
  {
    if fuel == 0 then Blocked
    else
      match Step(m)
      case Next(after) => Resume(after, fuel - 1)
      case Trapped(after) => Stopped(after)
      case Exited => Gone
      case Fault => Stopped(m)
  }

  // ----- disassembly

  const WINDOW: nat := 7

  function DecodeWord(code: word): Decoded {
    Decode(Bytes(code)[..WINDOW])
  }

  function Translate(a: Addr, code: word): Message {
    var d := DecodeWord(code);
    if d.Decoded? then Line(a, Bytes(code)[..d.len], d.ins) else NoLine
  }

  /** The length `translate` returns; -1 when nothing decodes. */
  function LengthOf(code: word): Addr {
    var d := DecodeWord(code);
    if d.Decoded? then d.len else SPACE - 1
  }

  function CodeAt(mem: Memory, t: seq<Entry>, a: Addr): word {
    if a in Addrs(t) then First(t, a).code else Peek(mem, a)
  }

  const N_DISASM_INS: nat := 10

  function Sweep(mem: Memory, t: seq<Entry>, text: Text, a: Addr, n: nat): seq<Message>
    decreases n
  {
    if n == 0 || !text.Has(a) then []
    else
      var code := CodeAt(mem, t, a);
      [Translate(a, code)] + Sweep(mem, t, text, Wrap(a + LengthOf(code)), n - 1)
  }

  // ----- pieces of commands

  function Report(t: seq<Entry>, a: Addr): seq<Message> {
    if a in Addrs(t) then [Hit, Translate(a, First(t, a).code)] else [HitNothing]
  }

  /** Restore the original byte, execute one instruction, and put back the eight bytes that were
      there before. */
  function StepOver(m: Machine, e: Entry): Wait {
    var w := Single(m.(mem := m.mem[e.addr := Low(e.code)]));
    if w.Stopped? then
      Stopped(w.m.(mem := Write(w.m.mem, e.addr, Fetch(m.mem, e.addr, 8))))
    else w
  }

  /** After a stop inside `cont`: back from just past a trap to the breakpoint it belongs to. */
  function Rewind(m: Machine, t: seq<Entry>): Machine {
    var a := Wrap(m.regs.rip - 1);
    if a in Addrs(t) then m.(regs := m.regs.(rip := a)) else m
  }

  /** Put the trap byte at every entry not below `lo`. */
  function Rearm(mem: Memory, t: seq<Entry>, lo: Addr): Memory {
    if t == [] then mem
    else
      var before := Rearm(mem, t[..|t| - 1], lo);
      var e := t[|t| - 1];
      if e.addr < lo then before else before[e.addr := TRAP]
  }

  function Release(d: Dbg): Dbg
    requires !d.phase.NoLoad?
  {
    d.(phase := Loaded(d.phase.img), ripSet := false)
  }

  /** The process exited. The table stays. */
  function Ended(d: Dbg): Dbg
    requires d.phase.Running?
  {
    Release(d).Says([Terminated])
  }

  // ----- the commands

  function DoLoad(d: Dbg, file: Option<Elf>): Dbg {
    if !d.phase.NoLoad? then d.Says([Refused(NeedNoLoad)])
    else if file.None? then d.Says([Refused(BadArgument)])
    else
      Dbg(Loaded(ImageOf(file.value)), false, d.table, d.log + [ProgramLoaded(file.value.entry)])
  }

  function DoStart(d: Dbg): Dbg {
    if !d.phase.Loaded? then d.Says([Refused(NeedLoaded)])
    else
      var img := d.phase.img;
      var m := img.boot.(mem := Rearm(img.boot.mem, d.table, img.text.lo));
      Dbg(Running(img, m), false, d.table, d.log + Report(d.table, m.regs.rip))
  }

  function DoSi(d: Dbg): Dbg {
    if !d.phase.Running? then d.Says([Refused(NeedRunning)])
    else
      var m := d.phase.m;
      var w := if m.regs.rip in Addrs(d.table) then StepOver(m, First(d.table, m.regs.rip)) else Single(m);
      if w.Stopped? then
        Dbg(Running(d.phase.img, w.m), false, d.table, d.log + Report(d.table, w.m.regs.rip))
      else Ended(d)
  }

  function DoCont(d: Dbg, fuel: nat): Option<Dbg> {
    if !d.phase.Running? then Some(d.Says([Refused(NeedRunning)]))
    else
      var m := d.phase.m;
      var off := if !d.ripSet && m.regs.rip in Addrs(d.table) then StepOver(m, First(d.table, m.regs.rip)) else Stopped(m);
      if !off.Stopped? then Some(Ended(d))
      else
        var w := Resume(off.m, fuel);
        match w
        case Blocked => None
        case Gone => Some(Ended(d))
        case Stopped(s) =>
          Some(Dbg(Running(d.phase.img, Rewind(s, d.table)), false, d.table,
                   d.log + Report(d.table, Wrap(s.regs.rip - 1))))
  }

  function DoRun(d: Dbg, fuel: nat): Option<Dbg> {
    if d.phase.NoLoad? then Some(d.Says([Refused(NeedProgram)]))
    else
      var r := DoCont(if d.phase.Loaded? then DoStart(d) else d.Says([AlreadyRunning]), fuel);
      if r.None? then None else Some(r.value.(ripSet := false))
  }

  function DoBreak(d: Dbg, at: Option<Addr>): Dbg {
    if !d.phase.Running? then d.Says([Refused(NeedRunning)])
    else if at.None? then d.Says([Refused(BadArgument)])
    else if !d.phase.img.text.Has(at.value) then d.Says([Refused(OutOfText)])
    else
      var (m, a) := (d.phase.m, at.value);
      var warning := if a in Addrs(d.table) then [AlreadyBroken(IndexOf(Addrs(d.table), a))] else [];
      Dbg(Running(d.phase.img, m.(mem := m.mem[a := TRAP])), d.ripSet,
          d.table + [Entry(a, Peek(m.mem, a))], d.log + warning)
  }

  function DoDelete(d: Dbg, index: Option<int>): Dbg {
    if !d.phase.Running? then d.Says([Refused(NeedRunning)])
    else if index.None? then d.Says([Refused(BadArgument)])
    else if !(0 <= index.value < |d.table|) then d.Says([NoSuchBreakpoint(index.value)])
    else
      var (m, e) := (d.phase.m, d.table[index.value]);
      Dbg(Running(d.phase.img, m.(mem := m.mem[e.addr := Low(e.code)])), d.ripSet,
          Remove(d.table, index.value), d.log + [Deleted(index.value, e.addr)])
  }

  function Get(r: Regs, t: Target): word {
    match t
    case Gp(i) => r.gpr[i]
    case Rip => WordOf(r.rip)
    case Flags => r.flags
  }

  function Put(r: Regs, t: Target, v: word): Regs {
    match t
    case Gp(i) => r.(gpr := r.gpr[i := v])
    case Rip => r.(rip := AddrOf(v))
    case Flags => r.(flags := v)
  }

  const MINUS_ONE: word := 0xffff_ffff_ffff_ffff

  /** The register handler reads when the value is 0 and writes otherwise; it answers -1 for an
      unknown name, so a register that reads as -1 is taken for one. */
  function ReadsAsError(r: Regs, t: Target, v: word): bool {
    v == 0 && Get(r, t) == MINUS_ONE
  }

  function SetRegs(r: Regs, t: Target, v: word): Regs {
    if v == 0 then r else Put(r, t, v)
  }

  function DoSetReg(d: Dbg, t: Option<Target>, v: word): Dbg {
    if !d.phase.Running? then d.Says([Refused(NeedRunning)])
    else if t.None? then d.Says([Refused(BadArgument)])
    else if ReadsAsError(d.phase.m.regs, t.value, v) then d
    else
      d.(phase := Running(d.phase.img, d.phase.m.(regs := SetRegs(d.phase.m.regs, t.value, v))),
         ripSet := d.ripSet || t.value.Rip?)
  }

  function DoDisasm(d: Dbg, at: Option<Addr>): Dbg {
    if !d.phase.Running? then d.Says([Refused(NeedRunning)])
    else if at.None? then d.Says([Refused(BadArgument)])
    else if !d.phase.img.text.Has(at.value) then d.Says([Refused(OutOfText)])
    else d.Says(Sweep(d.phase.m.mem, d.table, d.phase.img.text, at.value, N_DISASM_INS))
  }

  function Exec(d: Dbg, c: Command, fuel: nat): Option<Dbg> {
    match c
    case Load(file) => Some(DoLoad(d, file))
    case Start => Some(DoStart(d))
    case Cont => DoCont(d, fuel)
    case Run => DoRun(d, fuel)
    case Si => Some(DoSi(d))
    case Break(at) => Some(DoBreak(d, at))
    case Delete(index) => Some(DoDelete(d, index))
    case SetReg(t, v) => Some(DoSetReg(d, t, v))
    case Disasm(at) => Some(DoDisasm(d, at))
    case Show => Some(d)
  }

  /** A whole sequence of commands, as long as each one returns. */
  function ExecAll(d: Dbg, cs: seq<Command>, fuel: nat): Option<Dbg>
    decreases |cs|
  {
    if cs == [] then Some(d)
    else
      var r := Exec(d, cs[0], fuel);
      if r.None? then None else ExecAll(r.value, cs[1..], fuel)
  }
}
