/** What the user of the debugger can rely on. */
module Theorems {
  import opened Words
  import opened Tracee
  import opened BreakpointTable
  import opened Commands
  import opened Observer
  import opened Refinement
  import opened Sessions
  import opened Stops

  /** The unpatched process behind a running debugger. */
  function Program(d: Dbg): Machine
    requires d.phase.Running?
  {
    Unpatch(d.phase.m, d.table)
  }

  function Breakpoints(d: Dbg): set<Addr> {
    AddrSet(Addrs(d.table))
  }

  lemma {:induction false} RepeatAdmissible(o: Obs, c: Command, k: nat, fuel: nat, h: set<Addr>)
    requires c.Cont? || c.Si?
    ensures AllAdmissible(o, Repeat(c, k), fuel, h) && AllLegible(o, Repeat(c, k), fuel, h)
    decreases k
  {
    hide SeeCommand;
    if k > 0 {
      RepeatTail(c, k);
      if SeeCommand(o, c, fuel).Some? {
        RepeatAdmissible(SeeCommand(o, c, fuel).value, c, k - 1, fuel, h);
      }
    }
  }

  // ----- any program, any command

  /** What a command does to the table. */
  lemma TableAfter(d: Dbg, c: Command, fuel: nat)
    requires Exec(d, c, fuel).Some?
    ensures var t := Exec(d, c, fuel).value.table;
            match c
            case Break(Some(a)) =>
              t == if d.phase.Running? && d.phase.img.text.Has(a) then d.table + [Entry(a, Peek(d.phase.m.mem, a))]
                   else d.table
            case Delete(Some(i)) =>
              t == if d.phase.Running? && 0 <= i < |d.table| then Remove(d.table, i) else d.table
            case _ => t == d.table
  {
    hide Step, Resume, StepOver, Single, Rewind, Report, Rearm, Sweep, Peek, SetRegs, IndexOf;
  }

  lemma {:induction false} RepeatKeepsTable(d: Dbg, c: Command, k: nat, fuel: nat)
    requires (c.Cont? || c.Si?) && ExecAll(d, Repeat(c, k), fuel).Some?
    ensures ExecAll(d, Repeat(c, k), fuel).value.table == d.table
    decreases k
  {
    hide Exec;
    if k > 0 {
      RepeatTail(c, k);
      TableAfter(d, c, fuel);
      RepeatKeepsTable(Exec(d, c, fuel).value, c, k - 1, fuel);
    }
  }

  lemma {:induction false} ResumeMore(m: Machine, fuel: nat, more: nat)
    requires fuel <= more && !Resume(m, fuel).Blocked?
    ensures Resume(m, more) == Resume(m, fuel)
    decreases fuel
  {
    hide Step;
    if fuel > 0 && Step(m).Next? {
      ResumeMore(Step(m).m, fuel - 1, more - 1);
    }
  }

  /** Waiting longer changes nothing for a command that returns. */
  lemma WaitingLonger(d: Dbg, c: Command, fuel: nat, more: nat)
    requires fuel <= more && Exec(d, c, fuel).Some?
    ensures Exec(d, c, more) == Exec(d, c, fuel)
  {
    hide DoLoad, DoStart, DoSi, DoBreak, DoDelete, DoSetReg, DoDisasm, DoCont;
    if c.Cont? {
      ContMore(d, fuel, more);
    } else if c.Run? && !d.phase.NoLoad? {
      ContMore(if d.phase.Loaded? then DoStart(d) else d.Says([AlreadyRunning]), fuel, more);
    }
  }

  lemma ContMore(d: Dbg, fuel: nat, more: nat)
    requires fuel <= more && DoCont(d, fuel).Some?
    ensures DoCont(d, more) == DoCont(d, fuel)
  {
    hide StepOver, Resume, Rewind, Report;
    if d.phase.Running? {
      var m := d.phase.m;
      var off := if !d.ripSet && m.regs.rip in Addrs(d.table) then StepOver(m, First(d.table, m.regs.rip)) else Stopped(m);
      if off.Stopped? {
        ResumeMore(off.m, fuel, more);
      }
    }
  }

  /** Nor for a session: its result does not depend on how long the debugger is ready to wait. */
  lemma {:induction false} SessionWaitingLonger(d: Dbg, cs: seq<Command>, fuel: nat, more: nat)
    requires fuel <= more && ExecAll(d, cs, fuel).Some?
    ensures ExecAll(d, cs, more) == ExecAll(d, cs, fuel)
    decreases |cs|
  {
    hide Exec;
    if cs != [] {
      WaitingLonger(d, cs[0], fuel, more);
      SessionWaitingLonger(Exec(d, cs[0], fuel).value, cs[1..], fuel, more);
    }
  }

  // ----- cont

  /** One `cont`: the process stops at the least position of the program's own execution, after
      the present one, that stands on a listed address, with the program's registers and data;
      or the program has ended before any. After `set rip` the present position counts too. */
  lemma ContExact(d: Dbg, fuel: nat, h: set<Addr>)
    requires Faithful(d, h) && d.phase.Running? && DoCont(d, fuel).Some?
    ensures var after := DoCont(d, fuel).value;
            && Faithful(after, h) && after.table == d.table
            && (after.phase.Running? ==>
                  exists n: nat :: NextStop(Program(d), Breakpoints(d), FirstCandidate(d.ripSet), n)
                    && Steps(Program(d), n) == [Program(after)])
            && (!after.phase.Running? ==>
                  after.phase == Loaded(d.phase.img)
                  && exists n: nat :: EndsFirst(Program(d), Breakpoints(d), FirstCandidate(d.ripSet), n)
                       && Steps(Program(d), n) != [] && Step(Steps(Program(d), n)[0]).Exited?)
  {
    hide Coupled, DoCont, SeeCont, NextStop, EndsFirst, Unpatch, Step;
    FaithfulCommand(d, Cont, fuel, h);
    TableAfter(d, Cont, fuel);
    var n := ContStopsNext(Seen(d), fuel);
    ContKeeps(Seen(d), fuel);
    var after := DoCont(d, fuel).value;
    if after.phase.Running? {
      assert Steps(Program(d), n) == [Program(after)];
    } else {
      assert EndsFirst(Program(d), Breakpoints(d), FirstCandidate(d.ripSet), n);
      EndIsExit(d, Breakpoints(d), FirstCandidate(d.ripSet), n, h);
    }
  }

  /** The program can only end by exiting. */
  lemma EndIsExit(d: Dbg, b: set<Addr>, from: nat, n: nat, h: set<Addr>)
    requires Faithful(d, h) && d.phase.Running? && EndsFirst(Program(d), b, from, n)
    ensures Steps(Program(d), n) != [] && Step(Steps(Program(d), n)[0]).Exited?
  {
    hide Step, Good, Unpatch, TableOk, SameText, Patch;
    var u, text := Program(d), d.phase.img.text;
    assert Behaved(u, h, text);
    BehavedAt(u, n, h, text);
    BehavedNext(Steps(u, n)[0], h, text);
  }

  /** And `cont` does return, for a debugger that waits long enough, whenever the execution has
      such a position or an end. */
  lemma ContReturns(d: Dbg, n: nat, fuel: nat, h: set<Addr>)
    requires Faithful(d, h) && d.phase.Running? && fuel > n
    requires NextStop(Program(d), Breakpoints(d), FirstCandidate(d.ripSet), n)
          || EndsFirst(Program(d), Breakpoints(d), FirstCandidate(d.ripSet), n)
    ensures DoCont(d, fuel).Some?
    ensures DoCont(d, fuel).value.phase.Running? <==> NextStop(Program(d), Breakpoints(d), FirstCandidate(d.ripSet), n)
  {
    hide Coupled, DoCont, SeeCont, NextStop, EndsFirst, Unpatch, Step, See;
    FaithfulCommand(d, Cont, fuel, h);
    if NextStop(Program(d), Breakpoints(d), FirstCandidate(d.ripSet), n) {
      ContReaches(Seen(d), n, fuel);
    } else {
      ContEnds(Seen(d), n, fuel);
    }
  }

  /** `k` times `cont` from a state where `rip` has not just been set: the process is at the
      `k`-th position of the execution that stands on a listed address. */
  lemma ContsExact(d: Dbg, k: nat, fuel: nat, h: set<Addr>)
    requires Faithful(d, h) && d.phase.Running? && !d.ripSet
    requires ExecAll(d, Repeat(Cont, k), fuel).Some?
    requires ExecAll(d, Repeat(Cont, k), fuel).value.phase.Running?
    ensures exists n: nat :: KthStop(Program(d), Breakpoints(d), k, n)
              && Steps(Program(d), n) == [Program(ExecAll(d, Repeat(Cont, k), fuel).value)]
  {
    hide Coupled, Unpatch, KthStop, Step, ExecAll, SeeAll, Repeat, AllAdmissible;
    RepeatAdmissible(Seen(d), Cont, k, fuel, h);
    FaithfulSession(d, Repeat(Cont, k), fuel, h);
    var n := ContsVisit(Seen(d), k, fuel);
    assert Steps(Program(d), n) == [Program(ExecAll(d, Repeat(Cont, k), fuel).value)];
  }

  /** And every such position is reached: position `n` by as many `cont` as there are listed
      positions up to it, if the debugger waits long enough. */
  lemma ContsComplete(d: Dbg, n: nat, fuel: nat, h: set<Addr>)
    requires Faithful(d, h) && d.phase.Running? && !d.ripSet
    requires n > 0 && StopAt(Program(d), Breakpoints(d), n) && fuel > n
    ensures var r := ExecAll(d, Repeat(Cont, CountStops(Program(d), Breakpoints(d), n)), fuel);
            r.Some? && r.value.phase.Running? && Steps(Program(d), n) == [Program(r.value)]
  {
    hide Coupled, Steps, Unpatch;
    var k := CountStops(Program(d), Breakpoints(d), n);
    RepeatAdmissible(Seen(d), Cont, k, fuel, h);
    FaithfulSession(d, Repeat(Cont, k), fuel, h);
    ContsReach(Seen(d), n, fuel);
  }

  /** `k` times `cont` lead to position `n` of the program's own execution from `u`. */
  ghost predicate ContsLeadTo(d: Dbg, k: nat, fuel: nat, u: Machine, n: nat) {
    var r := ExecAll(d, Repeat(Cont, k), fuel);
    r.Some? && r.value.phase.Running? && Steps(u, n) == [Program(r.value)]
  }

  /** Two debuggers on the same process, the second with more breakpoints: the stops of the first
      are a subsequence of the stops of the second. Stop `j + 1` of the first is at position
      `ns[j]` of the execution, and is the stop of the second with the number `CountStops(..)`
      of that position; both increase with `j`. */
  lemma MoreBreakpointsStopMore(d: Dbg, more: Dbg, k: nat, fuel: nat, h: set<Addr>) returns (ns: seq<nat>, wait: nat)
    requires Faithful(d, h) && Faithful(more, h) && d.phase.Running? && more.phase.Running?
    requires Program(d) == Program(more) && d.phase.img == more.phase.img && !d.ripSet && !more.ripSet
    requires Breakpoints(d) <= Breakpoints(more)
    requires ExecAll(d, Repeat(Cont, k), fuel).Some?
    requires ExecAll(d, Repeat(Cont, k), fuel).value.phase.Running?
    ensures fuel <= wait && |ns| == k && Increasing(ns)
    ensures forall j | 0 <= j < k :: KthStop(Program(d), Breakpoints(d), j + 1, ns[j])
    ensures forall i, j | 0 <= i < j < k ::
              CountStops(Program(d), Breakpoints(more), ns[i]) < CountStops(Program(d), Breakpoints(more), ns[j])
    ensures forall j | 0 <= j < k ::
              && ContsLeadTo(d, j + 1, wait, Program(d), ns[j])
              && ContsLeadTo(more, CountStops(Program(d), Breakpoints(more), ns[j]), wait, Program(d), ns[j])
  {
    hide Coupled, Steps, Unpatch, ContsStopAt, KthStop, ContsLeadTo, ExecAll, SeeAll, AllAdmissible, AllLegible;
    RepeatAdmissible(Seen(d), Cont, k, fuel, h);
    FaithfulSession(d, Repeat(Cont, k), fuel, h);
    ns, wait := StopsNest(Seen(d), Seen(more), k, fuel);
    forall j | 0 <= j < k
      ensures ContsLeadTo(d, j + 1, wait, Program(d), ns[j])
      ensures ContsLeadTo(more, CountStops(Program(d), Breakpoints(more), ns[j]), wait, Program(d), ns[j])
    {
      SeenContsLead(d, j + 1, fuel, ns[j], h);
      LeadsWaitingLonger(d, j + 1, fuel, wait, Program(d), ns[j]);
      SeenContsLead(more, CountStops(Program(d), Breakpoints(more), ns[j]), wait, ns[j], h);
    }
  }

  lemma LeadsWaitingLonger(d: Dbg, k: nat, fuel: nat, more: nat, u: Machine, n: nat)
    requires fuel <= more && ContsLeadTo(d, k, fuel, u, n)
    ensures ContsLeadTo(d, k, more, u, n)
  {
    hide ExecAll, Steps, Unpatch;
    SessionWaitingLonger(d, Repeat(Cont, k), fuel, more);
  }

  lemma SeenContsLead(d: Dbg, k: nat, fuel: nat, n: nat, h: set<Addr>)
    requires Faithful(d, h) && d.phase.Running? && ContsStopAt(Seen(d), k, fuel, n)
    ensures ContsLeadTo(d, k, fuel, Program(d), n)
  {
    hide Coupled, Unpatch, Steps, ExecAll, SeeAll, Repeat, AllAdmissible, AllLegible;
    RepeatAdmissible(Seen(d), Cont, k, fuel, h);
    FaithfulSession(d, Repeat(Cont, k), fuel, h);
  }

  // ----- si

  /** `n` times `si` executes exactly `n` instructions of the program, whether or not any of them
      stands on a breakpoint and whether or not `rip` has just been set; the breakpoints and the
      patches are afterwards what they were. If the program ends earlier, so does the process. */
  lemma SisExact(d: Dbg, n: nat, fuel: nat, h: set<Addr>)
    requires Faithful(d, h) && d.phase.Running?
    ensures var r := ExecAll(d, Repeat(Si, n), fuel);
            && r.Some? && Faithful(r.value, h) && r.value.table == d.table
            && (if Steps(Program(d), n) == [] then r.value.phase == Loaded(d.phase.img)
                else
                  && r.value.phase.Running? && [Program(r.value)] == Steps(Program(d), n)
                  && r.value.phase.m == Patched(Steps(Program(d), n)[0], Breakpoints(d)))
  {
    hide Steps, Unpatch, Patch, TableOk, SameText, Behaved;
    RepeatAdmissible(Seen(d), Si, n, fuel, h);
    FaithfulSession(d, Repeat(Si, n), fuel, h);
    SisStep(Seen(d), n, fuel);
    RepeatKeepsTable(d, Si, n, fuel);
  }

  // ----- set rip

  /** Where `set rip` leaves the program counter. */
  function Landing(u: Machine, v: word): Addr {
    if v == 0 then u.regs.rip else AddrOf(v)
  }

  /** `set rip` that leads to a breakpoint, and `cont`: the process executes nothing, the breakpoint
      is reported with the program's own instruction, and only `rip` differs from before. With the
      value 0 not even `rip` does, so that `cont` on a breakpoint stays where it is. */
  lemma SetRipThenCont(d: Dbg, v: word, fuel: nat, h: set<Addr>)
    requires Faithful(d, h) && d.phase.Running? && Landing(Program(d), v) in Addrs(d.table) && fuel > 0
    requires !ReadsAsError(d.phase.m.regs, Rip, v)
    requires v != 0 ==> Behaved(Program(d).(regs := Program(d).regs.(rip := AddrOf(v))), h, d.phase.img.text)
    ensures ExecAll(d, [SetReg(Some(Rip), v), Cont], fuel).Some?
    ensures var (a, after) := (Landing(Program(d), v), ExecAll(d, [SetReg(Some(Rip), v), Cont], fuel).value);
            && after.phase.Running? && Faithful(after, h) && !after.ripSet && after.table == d.table
            && Program(after) == Program(d).(regs := Program(d).regs.(rip := a))
            && after.log == d.log + [Hit, Translate(a, Peek(Program(d).mem, a))]
  {
    hide Coupled, Unpatch, Behaved, Step, Translate, Peek, ExecAll, Exec, SeeCommand;
    var set0, o := SetReg(Some(Rip), v), Seen(d);
    SetRipAdmissible(d, v, h);
    FaithfulCommand(d, set0, fuel, h);
    SetRipSeen(o, v, fuel);
    var d1 := Exec(d, set0, fuel).value;
    FaithfulCommand(d1, Cont, fuel, h);
    TableAfter(d, set0, fuel);
    TableAfter(d1, Cont, fuel);
    TwoCommands(d, set0, Cont, fuel);
  }

  lemma SetRipAdmissible(d: Dbg, v: word, h: set<Addr>)
    requires Faithful(d, h) && d.phase.Running?
    requires v != 0 ==> Behaved(Program(d).(regs := Program(d).regs.(rip := AddrOf(v))), h, d.phase.img.text)
    ensures Admissible(Seen(d), SetReg(Some(Rip), v), h)
    ensures d.phase.m.regs == Program(d).regs
  {
    hide Behaved, TableOk, SameText, Patch;
  }

  lemma SetRipSeen(o: Obs, v: word, fuel: nat)
    requires o.phase.Running? && !ReadsAsError(o.phase.m.regs, Rip, v)
    requires Landing(o.phase.m, v) in o.addrs && fuel > 0
    ensures var (a, o1) := (Landing(o.phase.m, v), SeeCommand(o, SetReg(Some(Rip), v), fuel));
            var u := o.phase.m.(regs := o.phase.m.regs.(rip := a));
            && o1.Some?
            && SeeCommand(o1.value, Cont, fuel) == Some(o.At(u).Says([Hit, Translate(a, Peek(u.mem, a))]))
  {
    hide SeeCont, See, Translate, Peek, AddrOf;
    ContAtOnce(SeeSetReg(o, Some(Rip), v), fuel);
  }

  lemma ContAtOnce(o: Obs, fuel: nat)
    requires o.phase.Running? && o.ripSet && o.phase.m.regs.rip in o.addrs && fuel > 0
    ensures var u := o.phase.m;
            SeeCont(o, fuel) == Some(o.At(u).Says([Hit, Translate(u.regs.rip, Peek(u.mem, u.regs.rip))]))
  {
    hide Step, Translate, Peek;
  }

  lemma TwoCommands(d: Dbg, c: Command, c': Command, fuel: nat)
    requires Exec(d, c, fuel).Some?
    ensures ExecAll(d, [c, c'], fuel) == Exec(Exec(d, c, fuel).value, c', fuel)
  {
    hide Exec;
    var d1 := Exec(d, c, fuel).value;
    assert [c, c'][1..] == [c'] && [c'][1..] == [];
    assert ExecAll(d1, [c'], fuel) == Exec(d1, c', fuel);
  }

  predicate RunsProcess(c: Command) {
    c.Cont? || c.Si? || c.Run?
  }

  /** A `set rip` that the debugger carries out. */
  predicate SetsRip(d: Dbg, c: Command) {
    d.phase.Running? && c.SetReg? && c.target == Some(Rip) && !ReadsAsError(d.phase.m.regs, Rip, c.value)
  }

  /** Command `k` of a session set `rip`, and none since then lets the process run. */
  ghost predicate LastSet(d: Dbg, cs: seq<Command>, fuel: nat, k: nat) {
    && k < |cs| && ExecAll(d, cs[..k], fuel).Some? && SetsRip(ExecAll(d, cs[..k], fuel).value, cs[k])
    && forall j :: k < j < |cs| ==> !RunsProcess(cs[j])
  }

  lemma FlagAfter(d: Dbg, c: Command, fuel: nat)
    requires Exec(d, c, fuel).Some? && (d.ripSet ==> d.phase.Running?)
    ensures var after := Exec(d, c, fuel).value;
            && (after.ripSet ==> after.phase.Running?)
            && (after.ripSet <==> !RunsProcess(c) && (d.ripSet || SetsRip(d, c)))
  {
    hide Step, Resume, StepOver, Single, Rewind, Report, Rearm, Sweep, Peek, SetRegs;
  }

  lemma LastSetLater(d: Dbg, cs: seq<Command>, fuel: nat, k: nat)
    requires cs != [] && Exec(d, cs[0], fuel).Some?
    ensures LastSet(Exec(d, cs[0], fuel).value, cs[1..], fuel, k) <==> LastSet(d, cs, fuel, k + 1)
  {
    hide Exec, SetsRip;
    var tail := cs[1..];
    if k < |tail| {
      assert cs[..k + 1][0] == cs[0] && cs[..k + 1][1..] == tail[..k] && tail[k] == cs[k + 1];
      assert forall j :: 0 <= j < |tail| ==> tail[j] == cs[j + 1];
      assert forall j :: 0 < j < |cs| ==> cs[j] == tail[j - 1];
    }
  }

  lemma {:induction false} FlagHolds(d: Dbg, cs: seq<Command>, fuel: nat, k: nat)
    requires (d.ripSet ==> d.phase.Running?) && ExecAll(d, cs, fuel).Some?
    requires LastSet(d, cs, fuel, k) || (d.ripSet && forall j :: 0 <= j < |cs| ==> !RunsProcess(cs[j]))
    ensures ExecAll(d, cs, fuel).value.ripSet
    decreases |cs|
  {
    hide Exec;
    if cs != [] {
      var d1, tail := Exec(d, cs[0], fuel).value, cs[1..];
      FlagAfter(d, cs[0], fuel);
      assert forall j :: 0 <= j < |tail| ==> tail[j] == cs[j + 1];
      if LastSet(d, cs, fuel, k) && k > 0 {
        LastSetLater(d, cs, fuel, k - 1);
        FlagHolds(d1, tail, fuel, k - 1);
      } else if LastSet(d, cs, fuel, k) {
        assert ExecAll(d, cs[..0], fuel) == Some(d);
        FlagHolds(d1, tail, fuel, 0);
      } else {
        FlagHolds(d1, tail, fuel, 0);
      }
    }
  }

  lemma {:induction false} FlagFrom(d: Dbg, cs: seq<Command>, fuel: nat) returns (k: nat)
    requires d.ripSet ==> d.phase.Running?
    requires ExecAll(d, cs, fuel).Some? && ExecAll(d, cs, fuel).value.ripSet
    ensures LastSet(d, cs, fuel, k) || (d.ripSet && forall j :: 0 <= j < |cs| ==> !RunsProcess(cs[j]))
    decreases |cs|
  {
    hide Exec, SetsRip;
    k := 0;
    if cs != [] {
      var tail := cs[1..];
      FlagAfter(d, cs[0], fuel);
      k := FlagFrom(Exec(d, cs[0], fuel).value, tail, fuel);
      assert forall j :: 0 < j < |cs| ==> cs[j] == tail[j - 1];
      if LastSet(Exec(d, cs[0], fuel).value, tail, fuel, k) {
        LastSetLater(d, cs, fuel, k);
        k := k + 1;
      } else {
        k := 0;
        assert ExecAll(d, cs[..0], fuel) == Some(d);
      }
    }
  }

  /** In every reachable state, whatever the commands and the program: `rip` counts as just set
      exactly when some command did set it and no command since then let the process run. */
  lemma FlagMeansJustSet(cs: seq<Command>, fuel: nat)
    requires ExecAll(INITIAL, cs, fuel).Some?
    ensures ExecAll(INITIAL, cs, fuel).value.ripSet <==> exists k: nat :: LastSet(INITIAL, cs, fuel, k)
  {
    hide ExecAll, LastSet;
    if ExecAll(INITIAL, cs, fuel).value.ripSet {
      var k := FlagFrom(INITIAL, cs, fuel);
    }
    forall k: nat | LastSet(INITIAL, cs, fuel, k)
      ensures ExecAll(INITIAL, cs, fuel).value.ripSet
    {
      FlagHolds(INITIAL, cs, fuel, k);
    }
  }

  /** `set`: the register reads back as the value exactly if that is not 0, or was there already;
      0 changes no register. Every other register and the memory are as before. A `set rip` counts,
      changed or not, unless it was taken for an unknown register. */
  lemma SetRegExact(d: Dbg, t: Target, v: word, other: Target)
    requires d.phase.Running?
    ensures var (after, regs) := (DoSetReg(d, Some(t), v), d.phase.m.regs);
            && after.phase.Running? && after.phase.m.mem == d.phase.m.mem && after.table == d.table
            && (Get(after.phase.m.regs, t) == v <==> v != 0 || Get(regs, t) == 0)
            && (v == 0 ==> after.phase == d.phase)
            && (other != t ==> Get(after.phase.m.regs, other) == Get(regs, other))
            && (after.ripSet <==> d.ripSet || (t == Rip && (v != 0 || Get(regs, Rip) != MINUS_ONE)))
  {
    hide WordOf, AddrOf;
    WordRoundTrip(v);
  }

  lemma WordRoundTrip(w: word)
    ensures WordOf(AddrOf(w)) == w
  {
  }
}
