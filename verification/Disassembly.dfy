/** What the disassembler shows: at a stop, over a whole `disasm`, and when exactly that is the
    program as it was loaded. */
module Disassembly {
  import opened Words
  import opened Tracee
  import opened BreakpointTable
  import opened Commands
  import opened Observer
  import opened Refinement
  import opened Sessions
  import opened Theorems
  import opened Lifecycle

  // ----- what a stop shows

  /** The disassembler shows the instruction the process executes next, byte for byte, if it fits
      the window, and nothing otherwise; and it moves on by that instruction's length. */
  lemma ShowsNextInstruction(u: Machine, h: set<Addr>, text: Text)
    requires Good(u, h, text)
    ensures var (d, a, code) := (DecodeAt(u), u.regs.rip, Peek(u.mem, u.regs.rip));
            && Translate(a, code) == (if d.len <= 7 then Line(a, Fetch(u.mem, a, d.len), d.ins) else NoLine)
            && (d.len <= 7 ==> LengthOf(code) == d.len)
  {
    hide Decode, Access, Pack, Bytes, Peek;
    var a := u.regs.rip;
    var s, t := Fetch(u.mem, a, LONGEST), Bytes(Peek(u.mem, a))[..WINDOW];
    BytesOfPeek(u.mem, a);
    var n := Decode(s).len;
    if n <= WINDOW {
      assert t[..n] == s[..n];
      DecodePrefix(s, t);
      assert Bytes(Peek(u.mem, a))[..n] == Fetch(u.mem, a, n);
    } else if Decode(t).Decoded? {
      assert s[..Decode(t).len] == t[..Decode(t).len];
      DecodePrefix(t, s);
    }
  }

  /** A breakpoint is reported with the instruction the program executes next. */
  lemma HitShowsNextInstruction(d: Dbg, h: set<Addr>)
    requires Faithful(d, h) && d.phase.Running? && Program(d).regs.rip in Addrs(d.table)
    ensures var (u, a) := (Program(d), Program(d).regs.rip);
            && DecodeAt(u).Decoded?
            && Report(d.table, a) ==
              [Hit, if DecodeAt(u).len <= 7 then Line(a, Fetch(u.mem, a, DecodeAt(u).len), DecodeAt(u).ins) else NoLine]
  {
    hide Unpatch, Translate, Peek, Low, Good, Patch, SameText, Decode;
    ReportRefines(d.phase.img, d.phase.m, Program(d), d.table, h, Seen(d));
    BehavedNow(Program(d), h, d.phase.img.text);
    ShowsNextInstruction(Program(d), h, d.phase.img.text);
  }

  // ----- the whole sweep

  lemma {:induction false} SurveyOfText(mem: Memory, img: Image, a: Addr, n: nat)
    requires Proper(img.text) && SameText(mem, img)
    ensures Survey(mem, img.text, a, n) == Survey(img.boot.mem, img.text, a, n)
    decreases n
  {
    hide Translate, LengthOf, Pack;
    if n > 0 && img.text.Has(a) {
      SamePeek(mem, img, a);
      SurveyOfText(mem, img, Wrap(a + LengthOf(Peek(mem, a))), n - 1);
    }
  }

  lemma SamePeek(mem: Memory, img: Image, a: Addr)
    requires Proper(img.text) && SameText(mem, img) && img.text.Has(a)
    ensures Peek(mem, a) == Peek(img.boot.mem, a)
  {
    hide Pack;
    var s, t := Fetch(mem, a, 8), Fetch(img.boot.mem, a, 8);
    forall k | 0 <= k < 8
      ensures s[k] == t[k]
    {
      assert Wrap(a + k) == a + k;
    }
    assert s == t;
  }

  /** `disasm` prints the program as it was loaded, when no address that has ever carried a
      breakpoint lies strictly inside an instruction it prints. */
  lemma DisasmShowsProgram(d: Dbg, a: Addr, h: set<Addr>)
    requires Faithful(d, h) && d.phase.Running? && d.phase.img.text.Has(a)
    requires SurveyClear(Program(d).mem, d.phase.img.text, a, N_DISASM_INS, h)
    ensures DoDisasm(d, Some(a)).log == d.log + Survey(d.phase.img.boot.mem, d.phase.img.text, a, N_DISASM_INS)
  {
    hide Behaved, Patch, TableOk, Unpatch, Sweep, Survey, SurveyClear, SameText;
    SweepRefines(d.phase.img, d.phase.m, Program(d), d.table, h, a, N_DISASM_INS);
    SurveyOfText(Program(d).mem, d.phase.img, a, N_DISASM_INS);
  }

  // ----- one line, exactly

  /** Every address of `b` strictly inside the instruction at `a` has a trap byte in the program
      itself. */
  ghost predicate Unspoilt(boot: Memory, a: Addr, b: set<Addr>) {
    var d := DecodeWord(Peek(boot, a));
    d.Decoded? ==> forall x | x in b && 0 < Offset(x, a) < d.len :: boot[x] == TRAP
  }

  /** Trap bytes behind the first make nothing decode that did not. */
  lemma IllegalStays(s: seq<byte>, t: seq<byte>)
    requires |s| == |t| == WINDOW && s[0] == t[0] && Decode(s).Illegal?
    requires forall k | 0 <= k < WINDOW :: t[k] == s[k] || t[k] == TRAP
    ensures Decode(t).Illegal?
  {
    hide Pack, Hi, Lo, Signed;
  }

  /** The first `n` bytes of the word at `a` agree exactly when no address strictly inside them
      changes a byte. */
  lemma PatchedBytes(boot: Memory, b: set<Addr>, a: Addr, n: nat)
    requires a + 8 <= SPACE && n <= 8 && (a in b ==> boot[a] == TRAP)
    ensures Bytes(Peek(Patch(boot, b), a))[..n] == Bytes(Peek(boot, a))[..n]
            <==> forall x | x in b && 0 < Offset(x, a) < n :: boot[x] == TRAP
  {
    hide Bytes, Peek, Low;
    BytesOfPeek(Patch(boot, b), a);
    BytesOfPeek(boot, a);
    var s, t := Bytes(Peek(Patch(boot, b), a))[..n], Bytes(Peek(boot, a))[..n];
    forall k | 0 <= k < n
      ensures s[k] == (if a + k in b then TRAP else boot[a + k]) && t[k] == boot[a + k] && Offset(a + k, a) == k
    {
      assert Wrap(a + k) == a + k;
    }
    if s == t {
      forall x | x in b && 0 < Offset(x, a) < n
        ensures boot[x] == TRAP
      {
        OffsetWraps(x, a);
        assert x == a + Offset(x, a);
        assert s[Offset(x, a)] == t[Offset(x, a)];
      }
    }
  }

  /** Exactly when a word of the program with trap bytes at `b` is shown like the program's own. */
  lemma LineExact(boot: Memory, b: set<Addr>, a: Addr)
    requires a + 8 <= SPACE && (a in b ==> boot[a] == TRAP)
    ensures Translate(a, Peek(Patch(boot, b), a)) == Translate(a, Peek(boot, a)) <==> Unspoilt(boot, a, b)
  {
    hide Decode, Bytes, Peek, Patch;
    var (v, w) := (Peek(Patch(boot, b), a), Peek(boot, a));
    if DecodeWord(w).Decoded? {
      PatchedBytes(boot, b, a, DecodeWord(w).len);
      if Bytes(v)[..DecodeWord(w).len] == Bytes(w)[..DecodeWord(w).len] {
        SameDecode(v, w, a);
      }
    } else {
      PatchedWindow(boot, b, a);
      IllegalStays(Bytes(w)[..WINDOW], Bytes(v)[..WINDOW]);
    }
  }

  lemma PatchedWindow(boot: Memory, b: set<Addr>, a: Addr)
    requires a in b ==> boot[a] == TRAP
    ensures var (t, s) := (Bytes(Peek(Patch(boot, b), a))[..WINDOW], Bytes(Peek(boot, a))[..WINDOW]);
            t[0] == s[0] && forall k | 0 <= k < WINDOW :: t[k] == s[k] || t[k] == TRAP
  {
    hide Bytes, Peek, Low;
    BytesOfPeek(Patch(boot, b), a);
    BytesOfPeek(boot, a);
    assert Wrap(a + 0) == a;
    var (t, s) := (Bytes(Peek(Patch(boot, b), a)), Bytes(Peek(boot, a)));
    forall k | 0 <= k < WINDOW
      ensures t[k] == s[k] || t[k] == TRAP
    {
      assert t[k] == Patch(boot, b)[Wrap(a + k)] && s[k] == boot[Wrap(a + k)];
    }
  }

  /** In a running debugger a word peeked in the text is the program's with trap bytes at the
      listed addresses. */
  lemma PeekedWord(d: Dbg, a: Addr, h: set<Addr>)
    requires Faithful(d, h) && d.phase.Running? && d.phase.img.text.Has(a)
    ensures Peek(d.phase.m.mem, a) == Peek(Patch(d.phase.img.boot.mem, Breakpoints(d)), a)
    ensures a + 8 <= SPACE
  {
    hide Behaved, TableOk, Unpatch, Pack;
    var (mem, boot, b) := (d.phase.m.mem, d.phase.img.boot.mem, Breakpoints(d));
    var s, t := Fetch(mem, a, 8), Fetch(Patch(boot, b), a, 8);
    forall k | 0 <= k < 8
      ensures s[k] == t[k]
    {
      assert Wrap(a + k) == a + k;
    }
    assert s == t;
  }

  /** Exactly when `disasm` is right about an address that is not listed. */
  lemma PeekedLineExact(d: Dbg, a: Addr, h: set<Addr>)
    requires Faithful(d, h) && d.phase.Running? && d.phase.img.text.Has(a) && a !in Addrs(d.table)
    ensures var boot := d.phase.img.boot.mem;
            Translate(a, CodeAt(d.phase.m.mem, d.table, a)) == Translate(a, Peek(boot, a))
            <==> Unspoilt(boot, a, Breakpoints(d))
  {
    hide Coupled, Translate, Unspoilt, Peek, Patch;
    PeekedWord(d, a, h);
    LineExact(d.phase.img.boot.mem, Breakpoints(d), a);
  }

  /** The command is not the `delete` of the entry that is found for `a`. */
  predicate Spares(d: Dbg, c: Command, a: Addr) {
    c.Delete? && c.index.Some? && d.phase.Running? ==> c.index.value != IndexOf(Addrs(d.table), a)
  }

  ghost predicate AllSpare(d: Dbg, cs: seq<Command>, fuel: nat, a: Addr)
    decreases |cs|
  {
    cs != [] ==>
      && Spares(d, cs[0], a)
      && (Exec(d, cs[0], fuel).Some? ==> AllSpare(Exec(d, cs[0], fuel).value, cs[1..], fuel, a))
  }

  /** No other command changes the entry found for an address, whatever the program does. */
  lemma FirstKept(d: Dbg, c: Command, fuel: nat, a: Addr)
    requires a in Addrs(d.table) && Spares(d, c, a) && Exec(d, c, fuel).Some?
    ensures var t := Exec(d, c, fuel).value.table;
            a in Addrs(t) && First(t, a) == First(d.table, a)
  {
    hide Exec, Peek, IndexOf, First;
    TableAfter(d, c, fuel);
    match c
    case Break(Some(b)) =>
      if d.phase.Running? {
        AddedFirst(d.table, Entry(b, Peek(d.phase.m.mem, b)), a);
      }
    case Delete(Some(i)) =>
      if d.phase.Running? && 0 <= i < |d.table| {
        RemovedFirst(d.table, i, a);
      }
    case _ =>
  }

  lemma AddedFirst(t: seq<Entry>, e: Entry, a: Addr)
    requires a in Addrs(t)
    ensures a in Addrs(t + [e]) && First(t + [e], a) == First(t, a)
  {
    hide IndexOf;
    AddrsOfAdd(t, e);
    IndexOfAppend(Addrs(t), e.addr, a);
  }

  lemma RemovedFirst(t: seq<Entry>, i: nat, a: Addr)
    requires i < |t| && a in Addrs(t) && i != IndexOf(Addrs(t), a)
    ensures a in Addrs(Remove(t, i)) && First(Remove(t, i), a) == First(t, a)
  {
    hide IndexOf;
    var s := Addrs(t);
    AddrsOfRemove(t, i);
    var j := IndexOf(s, a);
    assert forall k :: 0 <= k < j ==> s[..j][k] == s[k];
    IndexOfRemove(s, i, a);
  }

  lemma {:induction false} FirstKeptAlong(d: Dbg, cs: seq<Command>, fuel: nat, a: Addr)
    requires a in Addrs(d.table) && AllSpare(d, cs, fuel, a) && ExecAll(d, cs, fuel).Some?
    ensures var t := ExecAll(d, cs, fuel).value.table;
            a in Addrs(t) && First(t, a) == First(d.table, a)
    decreases |cs|
  {
    hide Exec, Spares, First;
    if cs != [] {
      FirstKept(d, cs[0], fuel, a);
      FirstKeptAlong(Exec(d, cs[0], fuel).value, cs[1..], fuel, a);
    }
  }

  /** Exactly when `disasm` is right about a listed address: `d` is the state just before its
      breakpoint was set, and `cs` any commands since, of any kind, that have not deleted it. What
      counts are the breakpoints there were then, not those there are now. */
  lemma ShownLineExact(d: Dbg, a: Addr, cs: seq<Command>, fuel: nat, h: set<Addr>)
    requires Faithful(d, h) && d.phase.Running? && d.phase.img.text.Has(a) && a !in Addrs(d.table)
    requires AllSpare(DoBreak(d, Some(a)), cs, fuel, a)
    requires ExecAll(DoBreak(d, Some(a)), cs, fuel).Some?
    requires ExecAll(DoBreak(d, Some(a)), cs, fuel).value.phase.Running?
    ensures var (r, boot) := (ExecAll(DoBreak(d, Some(a)), cs, fuel).value, d.phase.img.boot.mem);
            var log := DoDisasm(r, Some(a)).log;
            && a in Addrs(r.table) && |log| > |r.log|
            && (log[|r.log|] == Translate(a, Peek(boot, a)) <==> Unspoilt(boot, a, Breakpoints(d)))
  {
    hide Coupled, Translate, Unspoilt, Peek, Patch, ExecAll, IndexOf;
    var armed := DoBreak(d, Some(a));
    PeekedWord(d, a, h);
    LineExact(d.phase.img.boot.mem, Breakpoints(d), a);
    AddrsOfAdd(d.table, Entry(a, Peek(d.phase.m.mem, a)));
    IndexOfAppend(Addrs(d.table), a, a);
    FirstKeptAlong(armed, cs, fuel, a);
    SessionSound(armed, cs, fuel);
  }

  // ----- the whole sweep, exactly

  /** Beside the table: for each entry, the addresses that were listed when it was set. */
  function Note(d: Dbg, ns: seq<set<Addr>>, c: Command): seq<set<Addr>> {
    match c
    case Break(Some(a)) => if d.phase.Running? && d.phase.img.text.Has(a) then ns + [Breakpoints(d)] else ns
    case Delete(Some(i)) => if d.phase.Running? && 0 <= i < |ns| then Remove(ns, i) else ns
    case _ => ns
  }

  function NoteAll(d: Dbg, ns: seq<set<Addr>>, cs: seq<Command>, fuel: nat): seq<set<Addr>>
    decreases |cs|
  {
    if cs == [] || Exec(d, cs[0], fuel).None? then ns
    else NoteAll(Exec(d, cs[0], fuel).value, Note(d, ns, cs[0]), cs[1..], fuel)
  }

  /** Every saved word is the program's with trap bytes at the addresses noted for its entry. */
  ghost predicate Noted(d: Dbg, ns: seq<set<Addr>>) {
    && |ns| == |d.table|
    && (!d.phase.NoLoad? ==>
          forall j | 0 <= j < |ns| :: d.table[j].code == Peek(Patch(d.phase.img.boot.mem, ns[j]), d.table[j].addr))
  }

  lemma NoteKeeps(d: Dbg, ns: seq<set<Addr>>, c: Command, fuel: nat, h: set<Addr>)
    requires Faithful(d, h) && Noted(d, ns) && Exec(d, c, fuel).Some?
    ensures Noted(Exec(d, c, fuel).value, Note(d, ns, c))
  {
    hide Exec, Peek, Patch, TableOk, Mirrors, Behaved, Unpatch, Sound;
    TableAfter(d, c, fuel);
    CommandSound(d, c, fuel);
    if c.Break? && c.at.Some? && d.phase.Running? && d.phase.img.text.Has(c.at.value) {
      PeekedWord(d, c.at.value, h);
    }
  }

  lemma {:induction false} NotedSession(d: Dbg, o: Obs, ns: seq<set<Addr>>, cs: seq<Command>, fuel: nat, h: set<Addr>)
    requires Coupled(d, o, h) && AllAdmissible(o, cs, fuel, h)
    requires Noted(d, ns) && ExecAll(d, cs, fuel).Some?
    ensures Faithful(ExecAll(d, cs, fuel).value, h)
    ensures Noted(ExecAll(d, cs, fuel).value, NoteAll(d, ns, cs, fuel))
    decreases |cs|
  {
    hide Exec, SeeCommand, Coupled, Admissible, Noted, Note, Seen;
    CoupledIsFaithful(d, o, h);
    if cs != [] {
      CommandRefines(d, o, cs[0], fuel, h);
      NoteKeeps(d, ns, cs[0], fuel, h);
      NotedSession(Exec(d, cs[0], fuel).value, SeeCommand(o, cs[0], fuel).value, Note(d, ns, cs[0]), cs[1..], fuel, h);
    }
  }

  /** The addresses that can have put a trap byte into the word shown at `a`. */
  function Behind(d: Dbg, ns: seq<set<Addr>>, a: Addr): set<Addr>
    requires |ns| == |d.table|
  {
    if a in Addrs(d.table) then ns[IndexOf(Addrs(d.table), a)] else Breakpoints(d)
  }

  lemma CodeAtExact(d: Dbg, ns: seq<set<Addr>>, a: Addr, h: set<Addr>)
    requires Faithful(d, h) && Noted(d, ns) && d.phase.Running? && d.phase.img.text.Has(a)
    ensures var boot := d.phase.img.boot.mem;
            Translate(a, CodeAt(d.phase.m.mem, d.table, a)) == Translate(a, Peek(boot, a))
            <==> Unspoilt(boot, a, Behind(d, ns, a))
  {
    hide Translate, Unspoilt, Peek, Low, Mirrors, Behaved, Unpatch;
    var boot := d.phase.img.boot.mem;
    PeekedWord(d, a, h);
    if a in Addrs(d.table) {
      var j := IndexOf(Addrs(d.table), a);
      assert EntryOk(d.table, j, d.phase.img, h);
      BytesOfPeek(Patch(boot, ns[j]), a);
    }
    LineExact(boot, Behind(d, ns, a), a);
  }

  /** The addresses at which the survey of the program shows a line. */
  function Visited(mem: Memory, text: Text, a: Addr, n: nat): seq<Addr>
    decreases n
  {
    if n == 0 || !text.Has(a) then []
    else [a] + Visited(mem, text, Wrap(a + LengthOf(Peek(mem, a))), n - 1)
  }

  /** A sweep is right when each line is: a line that is right leads to the right next one. */
  lemma {:induction false} SweepExact(mem: Memory, t: seq<Entry>, text: Text, boot: Memory, a: Addr, n: nat)
    ensures Sweep(mem, t, text, a, n) == Survey(boot, text, a, n)
            <==> forall x | x in Visited(boot, text, a, n) ::
                   Translate(x, CodeAt(mem, t, x)) == Translate(x, Peek(boot, x))
    decreases n
  {
    hide Translate, LengthOf, Peek, CodeAt;
    if n > 0 && text.Has(a) {
      var (v, w) := (CodeAt(mem, t, a), Peek(boot, a));
      var (s, next) := (Sweep(mem, t, text, a, n), Wrap(a + LengthOf(w)));
      var vs := Visited(boot, text, next, n - 1);
      assert Visited(boot, text, a, n) == [a] + vs;
      assert s[0] == Translate(a, v) && Survey(boot, text, a, n)[0] == Translate(a, w);
      if Translate(a, v) == Translate(a, w) {
        SameLength(a, v, w);
        SweepExact(mem, t, text, boot, next, n - 1);
        assert s[1..] == Sweep(mem, t, text, next, n - 1);
        assert Survey(boot, text, a, n)[1..] == Survey(boot, text, next, n - 1);
      }
    }
  }

  lemma SameLength(a: Addr, v: word, w: word)
    requires Translate(a, v) == Translate(a, w)
    ensures LengthOf(v) == LengthOf(w)
  {
    hide Decode, Bytes;
    if DecodeWord(v).Decoded? {
      assert |Bytes(v)[..DecodeWord(v).len]| == |Bytes(w)[..DecodeWord(w).len]|;
    }
  }

  /** Exactly when `disasm` prints the program as it was loaded, after any session: when no
      breakpoint is strictly inside an instruction it shows, but on a trap byte of the program
      itself. For a listed instruction the breakpoints that count are those listed when it was
      set, and for any other those listed now. */
  lemma DisasmExact(cs: seq<Command>, a: Addr, fuel: nat, h: set<Addr>)
    requires AllAdmissible(ASLEEP, cs, fuel, h) && ExecAll(INITIAL, cs, fuel).Some?
    requires var d := ExecAll(INITIAL, cs, fuel).value; d.phase.Running? && d.phase.img.text.Has(a)
    ensures var (d, ns) := (ExecAll(INITIAL, cs, fuel).value, NoteAll(INITIAL, [], cs, fuel));
            var (boot, text) := (d.phase.img.boot.mem, d.phase.img.text);
            && |ns| == |d.table|
            && (DoDisasm(d, Some(a)).log == d.log + Survey(boot, text, a, N_DISASM_INS)
                <==> forall x | x in Visited(boot, text, a, N_DISASM_INS) :: Unspoilt(boot, x, Behind(d, ns, x)))
  {
    hide Coupled, ExecAll, NoteAll, Sweep, Survey, Visited, Unspoilt, Behind, Translate, CodeAt, Peek, Patch;
    StartsFaithful(h);
    NotedSession(INITIAL, ASLEEP, [], cs, fuel, h);
    var (d, ns) := (ExecAll(INITIAL, cs, fuel).value, NoteAll(INITIAL, [], cs, fuel));
    var (boot, text) := (d.phase.img.boot.mem, d.phase.img.text);
    SweepExact(d.phase.m.mem, d.table, text, boot, a, N_DISASM_INS);
    VisitedInText(boot, text, a, N_DISASM_INS);
    forall x | x in Visited(boot, text, a, N_DISASM_INS)
      ensures Translate(x, CodeAt(d.phase.m.mem, d.table, x)) == Translate(x, Peek(boot, x))
              <==> Unspoilt(boot, x, Behind(d, ns, x))
    {
      CodeAtExact(d, ns, x, h);
    }
    var (s, t) := (Sweep(d.phase.m.mem, d.table, text, a, N_DISASM_INS), Survey(boot, text, a, N_DISASM_INS));
    assert (d.log + s)[|d.log|..] == s && (d.log + t)[|d.log|..] == t;
  }

  lemma {:induction false} VisitedInText(mem: Memory, text: Text, a: Addr, n: nat)
    ensures forall x | x in Visited(mem, text, a, n) :: text.Has(x)
    decreases n
  {
    hide LengthOf, Peek;
    if n > 0 && text.Has(a) {
      VisitedInText(mem, text, Wrap(a + LengthOf(Peek(mem, a))), n - 1);
    }
  }
}
