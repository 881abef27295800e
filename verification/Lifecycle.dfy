/** The debugger as a state machine, and its breakpoints across edits, exits and restarts. */
module Lifecycle {
  import opened Words
  import opened Tracee
  import opened BreakpointTable
  import opened Commands
  import opened Observer
  import opened Refinement
  import opened Sessions
  import opened Theorems

  // ----- any program, any commands

  /** Nothing is listed before a program is loaded, and `rip` counts as just set only in a
      running process. */
  predicate Sound(d: Dbg) {
    (d.phase.NoLoad? ==> d.table == []) && (d.ripSet ==> d.phase.Running?)
  }

  /** A loaded program stays loaded: the text range and the image never change again. */
  predicate Keeps(d: Dbg, after: Dbg) {
    match d.phase
    case NoLoad => true
    case Loaded(img) => !after.phase.NoLoad? && after.phase.img == img
    case Running(img, _) => !after.phase.NoLoad? && after.phase.img == img
  }

  lemma CommandSound(d: Dbg, c: Command, fuel: nat)
    requires Exec(d, c, fuel).Some?
    ensures Sound(d) ==> Sound(Exec(d, c, fuel).value)
    ensures Keeps(d, Exec(d, c, fuel).value)
  {
    hide Step, Resume, StepOver, Single, Rewind, Report, Rearm, Sweep, Peek, SetRegs;
  }

  lemma {:induction false} SessionSound(d: Dbg, cs: seq<Command>, fuel: nat)
    requires Sound(d) && ExecAll(d, cs, fuel).Some?
    ensures Sound(ExecAll(d, cs, fuel).value) && Keeps(d, ExecAll(d, cs, fuel).value)
    decreases |cs|
  {
    hide Exec;
    if cs != [] {
      CommandSound(d, cs[0], fuel);
      SessionSound(Exec(d, cs[0], fuel).value, cs[1..], fuel);
    }
  }

  /** After a session in which a program was loaded, `load` is refused for ever. */
  lemma LoadsOnce(d: Dbg, cs: seq<Command>, fuel: nat, file: Option<Elf>)
    requires Sound(d) && !d.phase.NoLoad? && ExecAll(d, cs, fuel).Some?
    ensures var after := ExecAll(d, cs, fuel).value;
            && !after.phase.NoLoad? && after.phase.img == d.phase.img
            && DoLoad(after, file) == after.Says([Refused(NeedNoLoad)])
  {
    hide ExecAll;
    SessionSound(d, cs, fuel);
  }

  /** However a process ends, the debugger is back to a loaded program with its table intact. */
  lemma ExitKeepsTable(d: Dbg, c: Command, fuel: nat)
    requires d.phase.Running? && Exec(d, c, fuel).Some? && !Exec(d, c, fuel).value.phase.Running?
    ensures var after := Exec(d, c, fuel).value;
            && after.phase == Loaded(d.phase.img) && after.table == d.table && !after.ripSet
            && |after.log| > 0 && after.log[|after.log| - 1] == Terminated
  {
    hide Step, Resume, StepOver, Single, Rewind, Report, Rearm, Sweep, Peek, SetRegs;
  }

  lemma RunIsStartThenCont(d: Dbg, fuel: nat)
    requires d.phase.Loaded?
    ensures DoRun(d, fuel) == ExecAll(d, [Start, Cont], fuel)
  {
    hide Step, Resume, StepOver, Single, Rewind, Report, Rearm;
    TwoCommands(d, Start, Cont, fuel);
  }

  // ----- restart

  /** A process that ends, even in the middle of stepping over a breakpoint whose byte is just
      then unpatched, can be started again: the fresh process carries every breakpoint. */
  lemma Restart(d: Dbg, c: Command, fuel: nat, h: set<Addr>)
    requires Faithful(d, h) && d.phase.Running? && Admissible(Seen(d), c, h)
    requires Exec(d, c, fuel).Some? && !Exec(d, c, fuel).value.phase.Running?
    ensures var again := DoStart(Exec(d, c, fuel).value);
            && Faithful(again, h) && again.table == d.table
            && again.phase == Running(d.phase.img, Patched(d.phase.img.boot, Breakpoints(d)))
  {
    hide Exec, Low, Behaved, Patch, Report, SeeCommand, Admissible;
    var over := Exec(d, c, fuel).value;
    FaithfulCommand(d, c, fuel, h);
    ExitKeepsTable(d, c, fuel);
    StartRefines(over, Seen(over), h);
    CoupledIsFaithful(DoStart(over), SeeStart(Seen(over)), h);
  }

  // ----- edits of the table

  predicate IsEdit(c: Command) { c.Break? || c.Delete? }

  lemma {:induction false} EditsKeepProcess(o: Obs, cs: seq<Command>, fuel: nat)
    requires o.phase.Running? && forall c | c in cs :: IsEdit(c)
    ensures SeeAll(o, cs, fuel).Some? && SeeAll(o, cs, fuel).value.phase == o.phase
    decreases |cs|
  {
    if cs != [] {
      assert IsEdit(cs[0]);
      EditsKeepProcess(SeeCommand(o, cs[0], fuel).value, cs[1..], fuel);
    }
  }

  lemma EditedProcess(d: Dbg, cs: seq<Command>, fuel: nat, h: set<Addr>)
    requires Faithful(d, h) && d.phase.Running? && AllAdmissible(Seen(d), cs, fuel, h)
    requires forall c | c in cs :: IsEdit(c)
    ensures ExecAll(d, cs, fuel).Some?
    ensures var r := ExecAll(d, cs, fuel).value;
            r.phase == Running(d.phase.img, Patched(Program(d), Breakpoints(r)))
  {
    hide ExecAll, SeeAll, Unpatch, TableOk, SameText, Behaved, Patch, AllAdmissible;
    FaithfulSession(d, cs, fuel, h);
    EditsKeepProcess(Seen(d), cs, fuel);
  }

  /** Whatever the order of setting and deleting, and however close the breakpoints are: the
      process depends only on the set of addresses that are left. */
  lemma OrderDoesNotMatter(d: Dbg, cs: seq<Command>, cs': seq<Command>, fuel: nat, h: set<Addr>)
    requires Faithful(d, h) && d.phase.Running?
    requires AllAdmissible(Seen(d), cs, fuel, h) && AllAdmissible(Seen(d), cs', fuel, h)
    requires forall c | c in cs + cs' :: IsEdit(c)
    requires ExecAll(d, cs, fuel).Some? && ExecAll(d, cs', fuel).Some?
    requires Breakpoints(ExecAll(d, cs, fuel).value) == Breakpoints(ExecAll(d, cs', fuel).value)
    ensures ExecAll(d, cs, fuel).value.phase == ExecAll(d, cs', fuel).value.phase
  {
    hide ExecAll, Coupled, Patch, Unpatch, Seen;
    assert forall c | c in cs :: c in cs + cs';
    assert forall c | c in cs' :: c in cs + cs';
    EditedProcess(d, cs, fuel, h);
    EditedProcess(d, cs', fuel, h);
  }

  /** With every breakpoint deleted the process is the program, byte for byte. */
  lemma NoBreakpointsNoPatches(d: Dbg, cs: seq<Command>, fuel: nat, h: set<Addr>)
    requires Faithful(d, h) && d.phase.Running? && AllAdmissible(Seen(d), cs, fuel, h)
    requires forall c | c in cs :: IsEdit(c)
    requires ExecAll(d, cs, fuel).Some? && ExecAll(d, cs, fuel).value.table == []
    ensures ExecAll(d, cs, fuel).value.phase == Running(d.phase.img, Program(d))
  {
    hide ExecAll, Coupled, Unpatch, Seen;
    EditedProcess(d, cs, fuel, h);
    assert Addrs([]) == [];
    assert Patch(Program(d).mem, {}) == Program(d).mem;
  }

  // ----- any session that empties the table

  /** The bytes that the accepted deletes of a session put back, for each address the last one. */
  function Erased(d: Dbg, cs: seq<Command>, fuel: nat): map<Addr, byte>
    decreases |cs|
  {
    if cs == [] || Exec(d, cs[0], fuel).None? then map[]
    else ErasedBy(d, cs[0]) + Erased(Exec(d, cs[0], fuel).value, cs[1..], fuel)
  }

  function ErasedBy(d: Dbg, c: Command): map<Addr, byte> {
    match c
    case Delete(Some(i)) =>
      if d.phase.Running? && 0 <= i < |d.table| then map[d.table[i].addr := Low(d.table[i].code)] else map[]
    case _ => map[]
  }

  lemma EditErases(d: Dbg, c: Command, fuel: nat, x: Addr)
    requires d.phase.Running? && IsEdit(c)
    ensures Exec(d, c, fuel).Some?
    ensures var (r, e) := (Exec(d, c, fuel).value, ErasedBy(d, c));
            && r.phase.Running? && r.phase.img == d.phase.img && r.phase.m.regs == d.phase.m.regs
            && (x in e ==> r.phase.m.mem[x] == e[x])
            && (x !in e ==> x !in Addrs(r.table) ==> x !in Addrs(d.table) && r.phase.m.mem[x] == d.phase.m.mem[x])
  {
    hide Low, Peek, IndexOf;
    match c
    case Break(Some(a)) =>
      AddrsOfAdd(d.table, Entry(a, Peek(d.phase.m.mem, a)));
    case Delete(Some(i)) =>
      if 0 <= i < |d.table| {
        AddrsOfRemove(d.table, i);
        RemoveMember(Addrs(d.table), i, x);
      }
    case _ =>
  }

  lemma {:induction false} EditsErase(d: Dbg, cs: seq<Command>, fuel: nat, x: Addr)
    requires d.phase.Running? && forall c | c in cs :: IsEdit(c)
    ensures ExecAll(d, cs, fuel).Some?
    ensures var (r, e) := (ExecAll(d, cs, fuel).value, Erased(d, cs, fuel));
            && r.phase.Running? && r.phase.img == d.phase.img && r.phase.m.regs == d.phase.m.regs
            && (x !in Addrs(r.table) ==>
                  if x in e then r.phase.m.mem[x] == e[x]
                  else x !in Addrs(d.table) && r.phase.m.mem[x] == d.phase.m.mem[x])
    decreases |cs|
  {
    hide Exec, ErasedBy, IsEdit;
    if cs != [] {
      assert IsEdit(cs[0]);
      EditErases(d, cs[0], fuel, x);
      EditsErase(Exec(d, cs[0], fuel).value, cs[1..], fuel, x);
    }
  }

  /** Exactly when the process is the program again after any setting and deleting that leaves
      nothing listed, duplicates and all: when for each address the entry deleted last had saved
      the program's byte. */
  lemma EmptiedExact(d: Dbg, cs: seq<Command>, fuel: nat)
    requires d.phase.Running? && (forall c | c in cs :: IsEdit(c))
    requires ExecAll(d, cs, fuel).Some? && ExecAll(d, cs, fuel).value.table == []
    ensures ExecAll(d, cs, fuel).value.phase == Running(d.phase.img, Program(d))
            <==> forall x | x in Erased(d, cs, fuel) :: Erased(d, cs, fuel)[x] == Program(d).mem[x]
  {
    hide ExecAll, Erased, Low;
    var (r, e, u) := (ExecAll(d, cs, fuel).value, Erased(d, cs, fuel), Program(d));
    assert Addrs(r.table) == [];
    EditsErase(d, cs, fuel, 0);
    forall x | 0 <= x < SPACE
      ensures r.phase.m.mem[x] == if x in e then e[x] else u.mem[x]
    {
      EditsErase(d, cs, fuel, x);
    }
    if forall x | x in e :: e[x] == u.mem[x] {
      assert r.phase.m.mem == u.mem;
    }
  }

  // ----- duplicates

  /** Exactly when deleting is safe: unless it takes the oldest of several entries for an
      address where the program has no trap byte of its own. Otherwise the address stays listed,
      its breakpoint is gone, and the entry now found for it has the trap byte saved. */
  lemma DeleteExact(d: Dbg, i: nat, h: set<Addr>)
    requires Faithful(d, h) && d.phase.Running? && i < |d.table|
    ensures var after := DoDelete(d, Some(i));
            && (Faithful(after, h) <==> Harmless(Addrs(d.table), i, Program(d).mem))
            && (!Faithful(after, h) ==>
                  && d.table[i].addr in Addrs(after.table) && after.phase.m.mem[d.table[i].addr] != TRAP
                  && Low(First(after.table, d.table[i].addr).code) == TRAP)
  {
    hide Coupled, Exec, DoDelete, Low, Unpatch, First;
    if Harmless(Addrs(d.table), i, Program(d).mem) {
      SafeDelete(d, i, h);
    } else {
      UnsafeDelete(d, i, h);
    }
  }

  lemma SafeDelete(d: Dbg, i: nat, h: set<Addr>)
    requires Faithful(d, h) && d.phase.Running? && i < |d.table| && Harmless(Addrs(d.table), i, Program(d).mem)
    ensures Faithful(DoDelete(d, Some(i)), h)
  {
    hide Coupled, Harmless, Unpatch, Low;
    FaithfulCommand(d, Delete(Some(i)), 0, h);
  }

  lemma UnsafeDelete(d: Dbg, i: nat, h: set<Addr>)
    requires Faithful(d, h) && d.phase.Running? && i < |d.table| && !Harmless(Addrs(d.table), i, Program(d).mem)
    ensures var (a, after) := (d.table[i].addr, DoDelete(d, Some(i)));
            && !Faithful(after, h) && a in Addrs(after.table) && after.phase.m.mem[a] != TRAP
            && Low(First(after.table, a).code) == TRAP
  {
    hide Low, Behaved, IndexOf, Saved, Bytes, Unpatch;
    var a, after := d.table[i].addr, DoDelete(d, Some(i));
    assert Addrs(d.table)[i] == a;
    InTable(d.table, d.phase.img, h, a);
    assert EntryOk(d.table, i, d.phase.img, h);
    AddrsOfRemove(d.table, i);
    RemoveMember(Addrs(d.table), i, a);
    assert after.phase.m.mem[a] == Program(d).mem[a];
    LaterEntryTraps(d.table, i, d.phase.img, h);
  }

  lemma LaterEntryTraps(t: seq<Entry>, i: nat, img: Image, h: set<Addr>)
    requires i < |t| && TableOk(t, img, h) && IndexOf(Addrs(t), t[i].addr) == i
    requires t[i].addr in Addrs(Remove(t, i))
    ensures Low(First(Remove(t, i), t[i].addr).code) == TRAP
  {
    hide Low, IndexOf, Saved, Bytes;
    var (r, a) := (Remove(t, i), t[i].addr);
    var j := IndexOf(Addrs(r), a);
    assert First(r, a) == r[j];
    var k := if j < i then j else j + 1;
    assert r[j] == t[k] && t[k].addr == a;
    assert EntryOk(t, k, img, h);
  }

  /** A step-over with such an entry executes the saved trap byte: no instruction of the program
      runs, memory is as before, and the process is left one byte further on. */
  lemma OrphanTraps(m: Machine, e: Entry)
    requires m.regs.rip == e.addr && Low(e.code) == TRAP
    ensures StepOver(m, e) == Stopped(m.(regs := m.regs.(rip := Wrap(e.addr + 1))))
  {
    hide Decode, Effect, Access, Pack, Low;
    var a := e.addr;
    var p := m.(mem := m.mem[a := TRAP]);
    assert Wrap(a + 0) == a;
    DecodeTrap(Fetch(p.mem, a, LONGEST));
    var back := Write(p.mem, a, Fetch(m.mem, a, 8));
    forall i | 0 <= i < SPACE
      ensures back[i] == m.mem[i]
    {
      OffsetWraps(i, a);
    }
    assert back == m.mem;
  }

  /** So after an unsafe delete `si` at that address skips into the middle of the program's
      instruction without executing it. */
  lemma OrphanSkips(d: Dbg, i: nat, h: set<Addr>)
    requires Faithful(d, h) && d.phase.Running? && i < |d.table| && d.phase.m.regs.rip == d.table[i].addr
    requires !Harmless(Addrs(d.table), i, Program(d).mem)
    ensures var after := DoDelete(d, Some(i));
            && after.phase.Running?
            && DoSi(after).phase ==
                 Running(d.phase.img, after.phase.m.(regs := after.phase.m.regs.(rip := Wrap(d.table[i].addr + 1))))
  {
    hide Low, Coupled, Unpatch, StepOver, Single, Report, Harmless, First;
    DeleteExact(d, i, h);
    var after := DoDelete(d, Some(i));
    assert First(after.table, d.table[i].addr).addr == d.table[i].addr;
    OrphanTraps(after.phase.m, First(after.table, d.table[i].addr));
  }

  lemma DistinctNeverOrphans(s: seq<Addr>, i: nat)
    requires Distinct(s) && i < |s|
    ensures !Orphans(s, i)
  {
    var later := s[i + 1..];
    assert forall k :: 0 <= k < |later| ==> later[k] == s[i + 1 + k];
  }

  /** As `Admissible`, but with no condition on `delete`, and `break` only where there is no
      breakpoint yet. */
  ghost predicate Fresh(o: Obs, c: Command, h: set<Addr>) {
    && (c.Delete? || Admissible(o, c, h))
    && (c.Break? && c.at.Some? ==> c.at.value !in o.addrs)
  }

  ghost predicate AllFresh(o: Obs, cs: seq<Command>, fuel: nat, h: set<Addr>)
    decreases |cs|
  {
    cs != [] ==>
      && Fresh(o, cs[0], h)
      && (SeeCommand(o, cs[0], fuel).Some? ==> AllFresh(SeeCommand(o, cs[0], fuel).value, cs[1..], fuel, h))
  }

  lemma FreshCommand(o: Obs, c: Command, fuel: nat, h: set<Addr>)
    requires Distinct(o.addrs) && Fresh(o, c, h)
    ensures Admissible(o, c, h)
    ensures SeeCommand(o, c, fuel).Some? ==> Distinct(SeeCommand(o, c, fuel).value.addrs)
  {
    hide Step, RunUntil, See, Survey, Behaved, Translate, SurveyClear, IndexOf, Orphans;
    if c.Delete? && c.index.Some? && 0 <= c.index.value < |o.addrs| {
      DistinctNeverOrphans(o.addrs, c.index.value);
      RemoveDistinct(o.addrs, c.index.value);
    }
  }

  /** When no address is broken twice, all deletes are safe and the addresses stay distinct. */
  lemma {:induction false} FreshSession(o: Obs, cs: seq<Command>, fuel: nat, h: set<Addr>)
    requires Distinct(o.addrs) && AllFresh(o, cs, fuel, h)
    ensures AllAdmissible(o, cs, fuel, h)
    ensures SeeAll(o, cs, fuel).Some? ==> Distinct(SeeAll(o, cs, fuel).value.addrs)
    decreases |cs|
  {
    hide SeeCommand, Admissible, Fresh, Distinct;
    if cs != [] {
      FreshCommand(o, cs[0], fuel, h);
      if SeeCommand(o, cs[0], fuel).Some? {
        FreshSession(SeeCommand(o, cs[0], fuel).value, cs[1..], fuel, h);
      }
    }
  }
}
