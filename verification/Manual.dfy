/** What each command does, told for any program and any state of the debugger: in terms of `Step`,
    of bounds and numbers written out, and of the entries of the table, with no assumption on the
    program. */
module Manual {
  import opened Words
  import opened Tracee
  import opened BreakpointTable
  import opened Commands
  import opened Theorems
  import opened Lifecycle

  // ----- the table

  ghost predicate Listed(t: seq<Entry>, a: Addr) {
    exists e | e in t :: e.addr == a
  }

  /** `e` is the entry for `a` that was set first. */
  ghost predicate Earliest(t: seq<Entry>, a: Addr, e: Entry) {
    exists j | 0 <= j < |t| :: t[j] == e && e.addr == a && forall k | 0 <= k < j :: t[k].addr != a
  }

  lemma ListedExact(t: seq<Entry>, a: Addr)
    ensures Listed(t, a) <==> a in Addrs(t)
  {
    if a in Addrs(t) {
      var j :| 0 <= j < |t| && Addrs(t)[j] == a;
      assert t[j] in t;
    }
    if Listed(t, a) {
      var e :| e in t && e.addr == a;
      var j :| 0 <= j < |t| && t[j] == e;
      assert Addrs(t)[j] == a;
    }
  }

  lemma EarliestExact(t: seq<Entry>, a: Addr)
    requires a in Addrs(t)
    ensures forall e :: Earliest(t, a, e) <==> e == First(t, a)
  {
    var s := Addrs(t);
    var j := IndexOf(s, a);
    forall k | 0 <= k < j
      ensures t[k].addr != a
    {
      assert s[..j][k] == t[k].addr;
    }
    assert t[j] == First(t, a) && t[j].addr == a;
    forall e | Earliest(t, a, e)
      ensures e == t[j]
    {
      var i :| 0 <= i < |t| && t[i] == e && e.addr == a && forall k | 0 <= k < i :: t[k].addr != a;
      assert !(i < j) && !(j < i);
    }
  }

  // ----- refusals

  /** A command in the wrong state, or without its argument, says why and changes nothing. */
  lemma RefusedWhen(d: Dbg, c: Command, fuel: nat)
    ensures c.Load? && !d.phase.NoLoad? ==> Exec(d, c, fuel) == Some(d.Says([Refused(NeedNoLoad)]))
    ensures c.Start? && !d.phase.Loaded? ==> Exec(d, c, fuel) == Some(d.Says([Refused(NeedLoaded)]))
    ensures c.Run? && d.phase.NoLoad? ==> Exec(d, c, fuel) == Some(d.Says([Refused(NeedProgram)]))
    ensures (c.Cont? || c.Si? || c.Break? || c.Delete? || c.SetReg? || c.Disasm?) && !d.phase.Running? ==>
              Exec(d, c, fuel) == Some(d.Says([Refused(NeedRunning)]))
    ensures c.Load? && d.phase.NoLoad? && c.file.None? ==> Exec(d, c, fuel) == Some(d.Says([Refused(BadArgument)]))
    ensures d.phase.Running?
              && ((c.Break? && c.at.None?) || (c.Delete? && c.index.None?)
                  || (c.SetReg? && c.target.None?) || (c.Disasm? && c.at.None?)) ==>
              Exec(d, c, fuel) == Some(d.Says([Refused(BadArgument)]))
  {
  }

  // ----- load and start

  /** The text range of a file without a .text section is the last address alone. */
  lemma LoadDoes(d: Dbg, elf: Elf)
    requires d.phase.NoLoad?
    ensures var after := DoLoad(d, Some(elf));
            && after.phase.Loaded? && after.phase.img.boot == elf.boot && after.phase.img.entry == elf.entry
            && (elf.section.Some? ==> after.phase.img.text == elf.section.value)
            && (elf.section.None? ==>
                  after.phase.img.text.lo == after.phase.img.text.hi == 0xffff_ffff_ffff_ffff)
            && !after.ripSet && after.table == d.table && after.log == d.log + [ProgramLoaded(elf.entry)]
  {
  }

  lemma {:induction false} RearmByte(mem: Memory, t: seq<Entry>, lo: Addr, x: Addr)
    ensures Rearm(mem, t, lo)[x] == if Listed(t, x) && x >= lo then 0xcc else mem[x]
  {
    if t != [] {
      var before, e := t[..|t| - 1], t[|t| - 1];
      assert t == before + [e];
      RearmByte(mem, before, lo, x);
    }
  }

  /** What a stop at `a` is reported as. */
  ghost predicate Reports(t: seq<Entry>, a: Addr, ms: seq<Message>) {
    if Listed(t, a) then |ms| == 2 && ms[0] == Hit && exists e :: Earliest(t, a, e) && ms[1] == Translate(a, e.code)
    else ms == [HitNothing]
  }

  lemma ReportReports(t: seq<Entry>, a: Addr)
    ensures Reports(t, a, Report(t, a))
  {
    hide Translate, Listed, Earliest;
    ListedExact(t, a);
    if a in Addrs(t) {
      EarliestExact(t, a);
    }
  }

  /** A fresh process: the registers of the image, and its memory with a trap byte at each listed
      address from the start of the text on. */
  lemma StartDoes(d: Dbg)
    requires d.phase.Loaded?
    ensures var (after, img) := (DoStart(d), d.phase.img);
            && after.phase.Running? && after.phase.img == img && !after.ripSet && after.table == d.table
            && after.phase.m.regs == img.boot.regs
            && (forall x: Addr ::
                  after.phase.m.mem[x] == if Listed(d.table, x) && x >= img.text.lo then 0xcc else img.boot.mem[x])
            && d.log <= after.log && Reports(d.table, img.boot.regs.rip, after.log[|d.log|..])
  {
    hide Listed, Reports, Report, Rearm;
    var img := d.phase.img;
    forall x: Addr
      ensures DoStart(d).phase.m.mem[x] == if Listed(d.table, x) && x >= img.text.lo then 0xcc else img.boot.mem[x]
    {
      RearmByte(img.boot.mem, d.table, img.text.lo, x);
    }
    ReportReports(d.table, img.boot.regs.rip);
  }

  // ----- one instruction

  /** `s` is where the process is after one instruction from `m`, wherever that ended: on a trap it
      is just past it, and on a fault where it was. */
  ghost predicate StopsAfterOne(m: Machine, s: Machine) {
    Step(m) == Next(s) || Step(m) == Trapped(s) || (Step(m).Fault? && s == m)
  }

  /** `s` is reached by stepping over the entry `e`: its saved byte is in memory for one
      instruction, and then the eight bytes from its address are what they were before. */
  ghost predicate StepsOver(m: Machine, e: Entry, s: Machine) {
    exists q :: StopsAfterOne(m.(mem := m.mem[e.addr := Low(e.code)]), q) && s.regs == q.regs
      && forall i: Addr :: s.mem[i] == if Offset(i, e.addr) < 8 then m.mem[i] else q.mem[i]
  }

  ghost predicate ExitsOver(m: Machine, e: Entry) {
    Step(m.(mem := m.mem[e.addr := Low(e.code)])).Exited?
  }

  lemma StepOverDoes(m: Machine, e: Entry)
    ensures match StepOver(m, e)
            case Stopped(s) => StepsOver(m, e, s)
            case _ => ExitsOver(m, e)
  {
    hide Step, Low;
    var p := m.(mem := m.mem[e.addr := Low(e.code)]);
    if StepOver(m, e).Stopped? {
      var q, s := Single(p).m, StepOver(m, e).m;
      assert StopsAfterOne(p, q);
      forall i: Addr
        ensures s.mem[i] == if Offset(i, e.addr) < 8 then m.mem[i] else q.mem[i]
      {
        OffsetWraps(i, e.addr);
      }
    }
  }

  /** The process has ended: the program is loaded as before, and the table stays. */
  ghost predicate HasEnded(d: Dbg, after: Dbg)
    requires d.phase.Running?
  {
    && after.phase == Loaded(d.phase.img) && !after.ripSet && after.table == d.table
    && after.log == d.log + [Terminated]
  }

  /** `si`: one instruction, stepping over the entry found first if the address is listed. */
  lemma SiDoes(d: Dbg, e: Entry)
    requires d.phase.Running?
    requires Listed(d.table, d.phase.m.regs.rip) ==> Earliest(d.table, d.phase.m.regs.rip, e)
    ensures var (after, m) := (DoSi(d), d.phase.m);
            if after.phase.Running? then
              && (if Listed(d.table, m.regs.rip) then StepsOver(m, e, after.phase.m) else StopsAfterOne(m, after.phase.m))
              && after.phase.img == d.phase.img && !after.ripSet && after.table == d.table
              && d.log <= after.log && Reports(d.table, after.phase.m.regs.rip, after.log[|d.log|..])
            else
              && (if Listed(d.table, m.regs.rip) then ExitsOver(m, e) else Step(m).Exited?)
              && HasEnded(d, after)
  {
    hide Step, Listed, Earliest, StepOver, StepsOver, ExitsOver, Report, Reports, First;
    ListedExact(d.table, d.phase.m.regs.rip);
    if Listed(d.table, d.phase.m.regs.rip) {
      EarliestExact(d.table, d.phase.m.regs.rip);
      StepOverDoes(d.phase.m, e);
    }
    if DoSi(d).phase.Running? {
      ReportReports(d.table, DoSi(d).phase.m.regs.rip);
    }
  }

  // ----- running

  /** `s` is where the process stops of itself when it runs freely from `u`: at the first trap, just
      past it, or at the first fault. */
  ghost predicate RunsTo(u: Machine, n: nat, s: Machine) {
    Steps(u, n) != [] && (Step(Steps(u, n)[0]) == Trapped(s) || (Step(Steps(u, n)[0]).Fault? && s == Steps(u, n)[0]))
  }

  ghost predicate RunsOut(u: Machine, n: nat) {
    Steps(u, n) != [] && Step(Steps(u, n)[0]).Exited?
  }

  lemma {:induction false} ResumeDoes(u: Machine, fuel: nat) returns (n: nat)
    ensures match Resume(u, fuel)
            case Stopped(s) => n < fuel && RunsTo(u, n, s)
            case Gone => n < fuel && RunsOut(u, n)
            case Blocked => Steps(u, fuel) != []
    decreases fuel
  {
    hide Step;
    n := 0;
    if fuel > 0 && Step(u).Next? {
      var k := ResumeDoes(Step(u).m, fuel - 1);
      n := k + 1;
      assert Steps(u, n) == Steps(Step(u).m, k);
      assert Steps(u, fuel) == Steps(Step(u).m, fuel - 1);
    }
  }

  /** What `cont` leaves where the process has stopped at `s`: if the address just before is
      listed, the process is moved back to it and the breakpoint is reported; otherwise it stays
      where it is, and that is reported as no breakpoint. */
  ghost predicate Settles(d: Dbg, s: Machine, after: Dbg)
    requires d.phase.Running?
  {
    var before := Wrap(s.regs.rip - 1);
    && after.phase.Running? && after.phase.img == d.phase.img && !after.ripSet && after.table == d.table
    && after.phase.m == (if Listed(d.table, before) then s.(regs := s.regs.(rip := before)) else s)
    && d.log <= after.log && Reports(d.table, before, after.log[|d.log|..])
  }

  lemma SettlesAt(d: Dbg, s: Machine)
    requires d.phase.Running?
    ensures Settles(d, s, Dbg(Running(d.phase.img, Rewind(s, d.table)), false, d.table,
                              d.log + Report(d.table, Wrap(s.regs.rip - 1))))
  {
    hide Listed, Report, Reports;
    ListedExact(d.table, Wrap(s.regs.rip - 1));
    ReportReports(d.table, Wrap(s.regs.rip - 1));
  }

  /** `cont` with nothing to step over: `rip` has just been set, or its address is not listed. */
  lemma ContFreely(d: Dbg, fuel: nat) returns (n: nat)
    requires d.phase.Running? && (d.ripSet || !Listed(d.table, d.phase.m.regs.rip))
    ensures match DoCont(d, fuel)
            case None => Steps(d.phase.m, fuel) != []
            case Some(after) =>
              n < fuel && ((exists s :: RunsTo(d.phase.m, n, s) && Settles(d, s, after))
                           || (RunsOut(d.phase.m, n) && HasEnded(d, after)))
  {
    hide Step, Listed, RunsTo, RunsOut, Settles, Resume, Report, Rewind, StepOver;
    ListedExact(d.table, d.phase.m.regs.rip);
    n := ResumeDoes(d.phase.m, fuel);
    if Resume(d.phase.m, fuel).Stopped? {
      SettlesAt(d, Resume(d.phase.m, fuel).m);
    }
  }

  /** `cont` from a listed address: first a step-over of the entry set first, and on from there. */
  lemma ContOver(d: Dbg, e: Entry, fuel: nat) returns (n: nat)
    requires d.phase.Running? && !d.ripSet && Earliest(d.table, d.phase.m.regs.rip, e)
    ensures match DoCont(d, fuel)
            case None => exists u :: StepsOver(d.phase.m, e, u) && Steps(u, fuel) != []
            case Some(after) =>
              || (ExitsOver(d.phase.m, e) && HasEnded(d, after))
              || (n < fuel && (exists u, s :: StepsOver(d.phase.m, e, u) && RunsTo(u, n, s) && Settles(d, s, after)))
              || (n < fuel && (exists u :: StepsOver(d.phase.m, e, u) && RunsOut(u, n)) && HasEnded(d, after))
  {
    hide Step, Listed, RunsTo, RunsOut, Settles, Resume, Report, Rewind, StepOver, StepsOver, ExitsOver, First, Earliest;
    var m := d.phase.m;
    EarliestListed(d.table, m.regs.rip, e);
    EarliestExact(d.table, m.regs.rip);
    StepOverDoes(m, e);
    n := 0;
    if StepOver(m, e).Stopped? {
      var u := StepOver(m, e).m;
      n := ResumeDoes(u, fuel);
      if Resume(u, fuel).Stopped? {
        SettlesAt(d, Resume(u, fuel).m);
      }
    }
  }

  lemma EarliestListed(t: seq<Entry>, a: Addr, e: Entry)
    requires Earliest(t, a, e)
    ensures a in Addrs(t)
  {
    var j :| 0 <= j < |t| && t[j] == e && e.addr == a;
    assert Addrs(t)[j] == a;
  }

  /** With an empty table: the process is left where it stopped, whatever stopped it. */
  lemma ContWithoutBreakpoints(d: Dbg, fuel: nat) returns (n: nat)
    requires d.phase.Running? && d.table == [] && DoCont(d, fuel).Some? && DoCont(d, fuel).value.phase.Running?
    ensures var after := DoCont(d, fuel).value;
            && n < fuel && Steps(d.phase.m, n) != [] && after.log == d.log + [HitNothing]
            && var p := Steps(d.phase.m, n)[0];
            Step(p) == Trapped(after.phase.m) || (Step(p).Fault? && after.phase.m == p)
  {
    hide Step, DoCont, Steps;
    n := ContFreely(d, fuel);
    var after := DoCont(d, fuel).value;
    var s :| RunsTo(d.phase.m, n, s) && Settles(d, s, after);
    assert after.log == d.log + after.log[|d.log|..];
  }

  /** `run` from loaded is `start` and `cont`; while the process runs it is a message and `cont`. */
  lemma RunDoes(d: Dbg, fuel: nat)
    requires !d.phase.NoLoad?
    ensures d.phase.Loaded? ==> DoRun(d, fuel) == DoCont(DoStart(d), fuel)
    ensures d.phase.Running? ==> DoRun(d, fuel) == DoCont(d.(log := d.log + [AlreadyRunning]), fuel)
  {
    hide Step, StepOver, Resume, Rewind, Report, Rearm;
  }

  // ----- set

  /** `set` of a value other than 0 changes exactly the register named; of 0 it changes none. */
  lemma SetDoes(d: Dbg, t: Target, v: word)
    requires d.phase.Running?
    ensures var (after, r) := (DoSetReg(d, Some(t), v), d.phase.m.regs);
            && after.phase.Running? && after.phase.img == d.phase.img && after.table == d.table && after.log == d.log
            && after.phase.m.mem == d.phase.m.mem
            && after.phase.m.regs.gpr == (if t.Gp? && v != 0 then r.gpr[t.r := v] else r.gpr)
            && after.phase.m.regs.rip == (if t.Rip? && v != 0 then v as int else r.rip)
            && after.phase.m.regs.flags == (if t.Flags? && v != 0 then v else r.flags)
            && (t != Rip || v != 0 ==> (after.ripSet <==> d.ripSet || t == Rip))
  {
  }

  // ----- setting and deleting breakpoints

  /** `break` sets one exactly from the first text address to the last, both included. A listed
      address gets a warning, with the position found for it, and another entry all the same. */
  lemma BreakDoes(d: Dbg, a: Addr)
    requires d.phase.Running?
    ensures var (after, m, lo, hi) := (DoBreak(d, Some(a)), d.phase.m, d.phase.img.text.lo, d.phase.img.text.hi);
            && (|after.table| > |d.table| <==> lo <= a && a <= hi)
            && (lo <= a && a <= hi ==>
                  && after.table == d.table + [Entry(a, Peek(m.mem, a))] && after.ripSet == d.ripSet
                  && after.phase == Running(d.phase.img, m.(mem := m.mem[a := 0xcc]))
                  && (!Listed(d.table, a) ==> after.log == d.log)
                  && (Listed(d.table, a) ==>
                        exists j | 0 <= j < |d.table| :: d.table[j].addr == a && (forall k | 0 <= k < j :: d.table[k].addr != a)
                          && after.log == d.log + [AlreadyBroken(j)]))
            && (a < lo || a > hi ==> after == d.(log := d.log + [Refused(OutOfText)]))
  {
    hide Peek, Listed;
    ListedExact(d.table, a);
    if a in Addrs(d.table) {
      var (s, j) := (Addrs(d.table), IndexOf(Addrs(d.table), a));
      forall k | 0 <= k < j
        ensures d.table[k].addr != a
      {
        assert s[..j][k] == d.table[k].addr;
      }
      assert d.table[j].addr == a;
    }
  }

  /** `delete i` takes entry `i`, counted from 0, if there is one, and puts its low byte back. */
  lemma DeleteDoes(d: Dbg, i: int)
    requires d.phase.Running?
    ensures var (after, m) := (DoDelete(d, Some(i)), d.phase.m);
            && (|after.table| < |d.table| <==> 0 <= i && i < |d.table|)
            && (0 <= i < |d.table| ==>
                  && after.table == d.table[..i] + d.table[i + 1..] && after.ripSet == d.ripSet
                  && after.phase == Running(d.phase.img, m.(mem := m.mem[d.table[i].addr := Low(d.table[i].code)]))
                  && after.log == d.log + [Deleted(i, d.table[i].addr)])
            && (i < 0 || i >= |d.table| ==> after == d.(log := d.log + [NoSuchBreakpoint(i)]))
  {
    hide Low;
  }

  // ----- disassembly

  /** How many addresses `disasm` goes on after a line: as many as the line shows bytes, or, where
      it shows nothing, one back. */
  function Advance(line: Message): nat {
    match line
    case Line(_, code, _) => |code|
    case _ => 0xffff_ffff_ffff_ffff
  }

  /** The line shown for `a`: the saved word of the entry set first, or what stands in memory; and
      the address it leads to. */
  ghost predicate LineAt(mem: Memory, t: seq<Entry>, line: Message, a: Addr, next: Addr) {
    && next == (a + Advance(line)) % 0x1_0000_0000_0000_0000
    && (Listed(t, a) ==> exists e :: Earliest(t, a, e) && line == Translate(a, e.code))
    && (!Listed(t, a) ==> line == Translate(a, Peek(mem, a)))
  }

  /** `at` are the addresses of `lines`, and then the one behind the last. */
  ghost predicate LinesAt(mem: Memory, t: seq<Entry>, lines: seq<Message>, at: seq<Addr>) {
    && |at| == |lines| + 1
    && forall k | 0 <= k < |lines| :: LineAt(mem, t, lines[k], at[k], at[k + 1])
  }

  lemma AdvanceIsLength(a: Addr, code: word)
    ensures Advance(Translate(a, code)) == LengthOf(code)
  {
    hide Decode, Bytes;
  }

  lemma LineOfCode(mem: Memory, t: seq<Entry>, a: Addr)
    ensures LineAt(mem, t, Translate(a, CodeAt(mem, t, a)), a, Wrap(a + LengthOf(CodeAt(mem, t, a))))
  {
    hide Translate, Peek, Listed, Earliest, First, LengthOf, Advance;
    AdvanceIsLength(a, CodeAt(mem, t, a));
    ListedExact(t, a);
    if a in Addrs(t) {
      EarliestExact(t, a);
      assert Earliest(t, a, First(t, a));
    }
  }

  lemma MoreLines(mem: Memory, t: seq<Entry>, a: Addr, line: Message, lines: seq<Message>, at: seq<Addr>)
    requires LinesAt(mem, t, lines, at) && LineAt(mem, t, line, a, at[0])
    ensures LinesAt(mem, t, [line] + lines, [a] + at)
  {
    hide LineAt;
    var (ls, next) := ([line] + lines, [a] + at);
    forall k | 0 <= k < |ls|
      ensures LineAt(mem, t, ls[k], next[k], next[k + 1])
    {
      if k > 0 {
        assert ls[k] == lines[k - 1] && next[k] == at[k - 1] && next[k + 1] == at[k];
      }
    }
  }

  lemma {:induction false} SweepLines(mem: Memory, t: seq<Entry>, text: Text, a: Addr, n: nat) returns (at: seq<Addr>)
    ensures var lines := Sweep(mem, t, text, a, n);
            && |lines| <= n && LinesAt(mem, t, lines, at) && at[0] == a
            && (forall k | 0 <= k < |lines| :: text.lo <= at[k] && at[k] <= text.hi)
            && (|lines| < n ==> at[|lines|] < text.lo || at[|lines|] > text.hi)
    decreases n
  {
    hide Translate, Peek, Listed, Earliest, CodeAt, LengthOf, LinesAt;
    if n == 0 || !text.Has(a) {
      at := [a];
      NoLines(mem, t, at);
    } else {
      var next := Wrap(a + LengthOf(CodeAt(mem, t, a)));
      var rest := SweepLines(mem, t, text, next, n - 1);
      LinesCounted(mem, t, Sweep(mem, t, text, next, n - 1), rest);
      LineOfCode(mem, t, a);
      MoreLines(mem, t, a, Translate(a, CodeAt(mem, t, a)), Sweep(mem, t, text, next, n - 1), rest);
      at := [a] + rest;
    }
  }

  lemma NoLines(mem: Memory, t: seq<Entry>, at: seq<Addr>)
    requires |at| == 1
    ensures LinesAt(mem, t, [], at)
  {
  }

  lemma LinesCounted(mem: Memory, t: seq<Entry>, lines: seq<Message>, at: seq<Addr>)
    requires LinesAt(mem, t, lines, at)
    ensures |at| == |lines| + 1
  {
  }

  /** `disasm` of an address from the first of the text to the last, both included: at least one
      line and at most ten, each where the one before it ends, all of them in the text, and fewer
      than ten only when the next would not be. It changes nothing but the output. */
  lemma DisasmDoes(d: Dbg, a: Addr) returns (at: seq<Addr>)
    requires d.phase.Running?
    ensures var (after, lo, hi) := (DoDisasm(d, Some(a)), d.phase.img.text.lo, d.phase.img.text.hi);
            && (a < lo || a > hi ==> after == d.(log := d.log + [Refused(OutOfText)]))
            && (lo <= a && a <= hi ==>
                  && d.log <= after.log && after == d.(log := after.log)
                  && var lines := after.log[|d.log|..];
                  && 1 <= |lines| <= 10 && LinesAt(d.phase.m.mem, d.table, lines, at) && at[0] == a
                  && (forall k | 0 <= k < |lines| :: lo <= at[k] && at[k] <= hi)
                  && (|lines| < 10 ==> at[|lines|] < lo || at[|lines|] > hi))
  {
    hide Translate, Peek, Listed, Earliest, CodeAt, LengthOf, LinesAt;
    at := SweepLines(d.phase.m.mem, d.table, d.phase.img.text, a, 10);
    if d.phase.img.text.lo <= a && a <= d.phase.img.text.hi {
      var lines := Sweep(d.phase.m.mem, d.table, d.phase.img.text, a, 10);
      LinesCounted(d.phase.m.mem, d.table, lines, at);
      assert DoDisasm(d, Some(a)).log[|d.log|..] == lines;
    }
  }
}
