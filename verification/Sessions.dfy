/** Consequences for whole sessions with the debugger. */
module Sessions {
  import opened Words
  import opened Tracee
  import opened BreakpointTable
  import opened Commands
  import opened Observer
  import opened Refinement

  // ----- the program behind the patches

  /** The process with the saved byte of each breakpoint put back. */
  function Unpatch(m: Machine, t: seq<Entry>): Machine {
    m.(mem := seq(SPACE, i requires 0 <= i < SPACE => if i in Addrs(t) then Low(First(t, i).code) else m.mem[i]))
  }

  function Seen(d: Dbg): Obs {
    var phase := if d.phase.Running? then Running(d.phase.img, Unpatch(d.phase.m, d.table)) else d.phase;
    Obs(phase, d.ripSet, Addrs(d.table), d.log)
  }

  /** The debugger's state is one the observer could see. */
  ghost predicate Faithful(d: Dbg, h: set<Addr>) {
    Coupled(d, Seen(d), h)
  }

  /** Putting the saved bytes back gives exactly the unpatched process. */
  lemma UnpatchInverts(img: Image, m: Machine, u: Machine, t: seq<Entry>, h: set<Addr>)
    requires Proper(img.text) && TableOk(t, img, h) && Mirrors(img, m, u, t, h)
    ensures Unpatch(m, t) == u
  {
    hide Low, Bytes, Pack, Behaved;
    var back := Unpatch(m, t).mem;
    forall i | 0 <= i < SPACE
      ensures back[i] == u.mem[i]
    {
      CodeAtOk(img, m, u, t, i, h);
    }
    assert back == u.mem;
  }

  lemma SeenLog(d: Dbg)
    ensures Seen(d).log == d.log
  {
    hide Unpatch;
  }

  lemma CoupledIsFaithful(d: Dbg, o: Obs, h: set<Addr>)
    requires Coupled(d, o, h)
    ensures Seen(d) == o.(log := d.log) && Faithful(d, h)
  {
    hide Low, Bytes, Behaved, TableOk, Mirrors;
    if d.phase.Running? {
      UnpatchInverts(d.phase.img, d.phase.m, o.phase.m, d.table, h);
    }
  }

  /** Every session from a faithful state, as long as its commands are admissible: it gets
      through to the same point and ends in a faithful state, the observer's but for what is
      printed; and in that one too if everything the session disassembles is legible. */
  lemma FaithfulSession(d: Dbg, cs: seq<Command>, fuel: nat, h: set<Addr>)
    requires Faithful(d, h) && AllAdmissible(Seen(d), cs, fuel, h)
    ensures ExecAll(d, cs, fuel).Some? <==> SeeAll(Seen(d), cs, fuel).Some?
    ensures ExecAll(d, cs, fuel).Some? ==>
              && var (r, seen) := (ExecAll(d, cs, fuel).value, SeeAll(Seen(d), cs, fuel).value);
              && Faithful(r, h) && Seen(r) == seen.(log := r.log)
              && (AllLegible(Seen(d), cs, fuel, h) ==> Seen(r) == seen)
  {
    hide Coupled, Seen, AllLegible;
    SeenLog(d);
    SessionRefines(d, Seen(d), cs, fuel, h);
    if ExecAll(d, cs, fuel).Some? {
      CoupledIsFaithful(ExecAll(d, cs, fuel).value, SeeAll(Seen(d), cs, fuel).value, h);
    }
  }

  lemma StartsFaithful(h: set<Addr>)
    ensures Faithful(INITIAL, h) && Seen(INITIAL) == ASLEEP
  {
    assert Addrs([]) == [];
  }

  /** One command from any faithful state. */
  lemma FaithfulCommand(d: Dbg, c: Command, fuel: nat, h: set<Addr>)
    requires Faithful(d, h) && Admissible(Seen(d), c, h)
    ensures Exec(d, c, fuel).Some? <==> SeeCommand(Seen(d), c, fuel).Some?
    ensures Exec(d, c, fuel).Some? ==>
              && var (r, seen) := (Exec(d, c, fuel).value, SeeCommand(Seen(d), c, fuel).value);
              && Faithful(r, h) && Seen(r) == seen.(log := r.log)
              && (Legible(Seen(d), c, h) ==> Seen(r) == seen)
  {
    hide Coupled, Seen, Exec, SeeCommand, Admissible, Legible;
    SeenLog(d);
    CommandRefines(d, Seen(d), c, fuel, h);
    if Exec(d, c, fuel).Some? {
      CoupledIsFaithful(Exec(d, c, fuel).value, SeeCommand(Seen(d), c, fuel).value, h);
    }
  }

  // ----- the patch invariant

  lemma EntryInvariant(d: Dbg, h: set<Addr>, i: nat)
    requires Faithful(d, h) && d.phase.Running? && i < |d.table|
    ensures var e, boot := d.table[i], d.phase.img.boot.mem;
            && d.phase.m.mem[e.addr] == TRAP && d.phase.img.text.Has(e.addr)
            && e.addr in Addrs(d.table) && Low(First(d.table, e.addr).code) == boot[e.addr]
            && (IndexOf(Addrs(d.table), e.addr) < i ==> Low(e.code) == TRAP)
  {
    hide Low, Bytes, Behaved;
    var e := d.table[i];
    assert Addrs(d.table)[i] == e.addr;
    assert EntryOk(d.table, i, d.phase.img, h);
    assert EntryOk(d.table, IndexOf(Addrs(d.table), e.addr), d.phase.img, h);
  }

  /** While the process runs, its memory is the program's with a trap byte at each listed
      address, all of them in the text; the first entry for an address has the program's byte,
      any later one the trap byte. */
  lemma PatchInvariant(d: Dbg, h: set<Addr>)
    requires Faithful(d, h) && d.phase.Running?
    ensures forall i | 0 <= i < |d.table| ::
              var e, boot := d.table[i], d.phase.img.boot.mem;
              && d.phase.m.mem[e.addr] == TRAP && d.phase.img.text.Has(e.addr)
              && e.addr in Addrs(d.table) && Low(First(d.table, e.addr).code) == boot[e.addr]
              && (IndexOf(Addrs(d.table), e.addr) < i ==> Low(e.code) == TRAP)
    ensures forall x: Addr | d.phase.img.text.Has(x) && x !in Addrs(d.table) ::
              d.phase.m.mem[x] == d.phase.img.boot.mem[x]
  {
    hide Low, Behaved, TableOk, Unpatch, First, IndexOf;
    forall i | 0 <= i < |d.table|
      ensures var e, boot := d.table[i], d.phase.img.boot.mem;
              && d.phase.m.mem[e.addr] == TRAP && d.phase.img.text.Has(e.addr)
              && e.addr in Addrs(d.table) && Low(First(d.table, e.addr).code) == boot[e.addr]
              && (IndexOf(Addrs(d.table), e.addr) < i ==> Low(e.code) == TRAP)
    {
      EntryInvariant(d, h, i);
    }
  }

  // ----- transparency

  ghost predicate OnPath(p: Phase) {
    p.Running? ==> exists n: nat :: Steps(p.img.boot, n) == [p.m]
  }

  lemma OnPathNext(img: Image, m: Machine)
    requires OnPath(Running(img, m)) && Step(m).Next?
    ensures OnPath(Running(img, Step(m).m))
  {
    hide Step;
    var n: nat :| Steps(img.boot, n) == [m];
    StepsAppend(img.boot, n, 1);
    assert Steps(m, 1) == Steps(Step(m).m, 0);
    assert Steps(img.boot, n + 1) == [Step(m).m];
  }

  lemma {:induction false} OnPathUntil(img: Image, m: Machine, b: set<Addr>, fuel: nat)
    requires OnPath(Running(img, m)) && RunUntil(m, b, fuel).Stopped?
    ensures OnPath(Running(img, RunUntil(m, b, fuel).m))
    decreases fuel
  {
    hide Step, OnPath;
    if m.regs.rip !in b {
      OnPathNext(img, m);
      OnPathUntil(img, Step(m).m, b, fuel - 1);
    }
  }

  lemma ContOnPath(o: Obs, fuel: nat)
    requires OnPath(o.phase) && SeeCont(o, fuel).Some?
    ensures OnPath(SeeCont(o, fuel).value.phase)
  {
    hide Step, OnPath, RunUntil, See;
    assert forall img :: OnPath(Loaded(img)) by {
      LoadedOnPath();
    }
    if o.phase.Running? {
      var (img, m) := (o.phase.img, o.phase.m);
      if !o.ripSet && m.regs.rip in o.addrs && Step(m).Next? {
        OnPathNext(img, m);
      }
      var off := if !o.ripSet && m.regs.rip in o.addrs then Once(m) else Stopped(m);
      if off.Stopped? && RunUntil(off.m, AddrSet(o.addrs), fuel).Stopped? {
        OnPathUntil(img, off.m, AddrSet(o.addrs), fuel);
      }
    }
  }

  lemma LoadedOnPath()
    ensures forall img :: OnPath(Loaded(img))
  {
  }

  lemma StartOnPath(o: Obs)
    requires OnPath(o.phase)
    ensures OnPath(SeeStart(o).phase)
  {
    if o.phase.Loaded? {
      assert Steps(o.phase.img.boot, 0) == [o.phase.img.boot];
    }
  }

  lemma CommandOnPath(o: Obs, c: Command, fuel: nat)
    requires OnPath(o.phase) && !c.SetReg? && SeeCommand(o, c, fuel).Some?
    ensures OnPath(SeeCommand(o, c, fuel).value.phase)
  {
    hide Step, SeeCont;
    match c
    case Cont => ContOnPath(o, fuel);
    case Start => StartOnPath(o);
    case Run =>
      StartOnPath(o);
      if o.phase.Loaded? {
        ContOnPath(SeeStart(o), fuel);
      } else if o.phase.Running? {
        ContOnPath(o.Says([AlreadyRunning]), fuel);
      }
    case Si =>
      if o.phase.Running? && Step(o.phase.m).Next? {
        OnPathNext(o.phase.img, o.phase.m);
      }
    case _ =>
  }

  lemma {:induction false} SessionOnPath(o: Obs, cs: seq<Command>, fuel: nat)
    requires OnPath(o.phase) && (forall c | c in cs :: !c.SetReg?) && SeeAll(o, cs, fuel).Some?
    ensures OnPath(SeeAll(o, cs, fuel).value.phase)
    decreases |cs|
  {
    hide SeeCommand, OnPath;
    if cs != [] {
      assert cs[0] in cs;
      CommandOnPath(o, cs[0], fuel);
      SessionOnPath(SeeCommand(o, cs[0], fuel).value, cs[1..], fuel);
    }
  }

  /** Breakpoints never change what the program computes: whatever commands have been given, as
      long as none writes a register, the process with its patched bytes read back is a state of
      the program's own execution from its first instruction. */
  lemma Transparent(cs: seq<Command>, fuel: nat, h: set<Addr>)
    requires AllAdmissible(ASLEEP, cs, fuel, h) && forall c | c in cs :: !c.SetReg?
    requires ExecAll(INITIAL, cs, fuel).Some? && ExecAll(INITIAL, cs, fuel).value.phase.Running?
    ensures var d := ExecAll(INITIAL, cs, fuel).value;
            exists n: nat :: Steps(d.phase.img.boot, n) == [Unpatch(d.phase.m, d.table)]
  {
    hide Coupled;
    StartsFaithful(h);
    FaithfulSession(INITIAL, cs, fuel, h);
    SessionOnPath(ASLEEP, cs, fuel);
  }
}
