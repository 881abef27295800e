/** `setjmp` and `longjmp`, instruction by instruction, on the registers and the stack they use. */
module Jump {
  import opened Words

  type u64 = w: nat | w < SPACE

  /** Memory as eight-byte cells by address. All cells that are read back are required to be
      apart from every cell stored to, so that overlapping cells never matter. */
  type Cells = c: seq<u64> | |c| == SPACE ghost witness seq(SPACE, _ => 0)

  datatype CallRegs = CallRegs(rax: u64, rbx: u64, rsp: u64, rbp: u64, rsi: u64, rdi: u64,
                               r12: u64, r13: u64, r14: u64, r15: u64, rip: u64)
  datatype Cpu = Cpu(r: CallRegs, mem: Cells)

  const SLOTS: nat := 8

  /** A jmp_buf does not wrap round. */
  predicate Buffer(env: u64) {
    env + 8 * SLOTS <= SPACE
  }

  /** The cell at `a` has nothing in common with the jmp_buf at `env`. */
  predicate Elsewhere(a: u64, env: u64) {
    a + 8 <= env || env + 8 * SLOTS <= a
  }

  predicate Apart(a: u64, b: u64) {
    a + 8 <= b || b + 8 <= a
  }

  /** Calling `setjmp`: the jmp_buf is not where the return address lies. */
  predicate Conventional(r: CallRegs) {
    Buffer(r.rdi) && r.rsp + 8 < SPACE && Elsewhere(r.rsp, r.rdi)
  }

  /** The eight words of the jmp_buf at `env`. */
  function Env(mem: Cells, env: u64): (s: seq<u64>)
    requires Buffer(env)
    ensures |s| == SLOTS
  {
    seq(SLOTS, k requires 0 <= k < SLOTS => mem[env + 8 * k])
  }

  lemma EnvCells(m: Cells, e: u64)
    requires Buffer(e)
    ensures Env(m, e) == [m[e], m[e + 8], m[e + 16], m[e + 24], m[e + 32], m[e + 40], m[e + 48], m[e + 56]]
  {
  }

  /** What the caller of `setjmp` will see when the call returns: the registers a callee keeps,
      the stack pointer past the return address, and the return address as program counter. */
  predicate SameReturn(a: CallRegs, b: CallRegs) {
    && a.rip == b.rip && a.rsp == b.rsp && a.rbx == b.rbx && a.rbp == b.rbp
    && a.r12 == b.r12 && a.r13 == b.r13 && a.r14 == b.r14 && a.r15 == b.r15
  }

  function Expected(before: Cpu): (ws: seq<u64>)
    requires Conventional(before.r)
    ensures |ws| == SLOTS
  {
    var r := before.r;
    [r.rbx, r.rsp + 8, r.rbp, r.r12, r.r13, r.r14, r.r15, before.mem[r.rsp]]
  }

  /** `setjmp` has returned 0 to its caller, and saved in the jmp_buf, and nowhere else, what
      such a return consists of. */
  predicate Saved(before: Cpu, after: Cpu)
    requires Conventional(before.r)
  {
    var r, q := before.r, after.r;
    && q == r.(rax := 0, rsi := before.mem[r.rsp], rsp := r.rsp + 8, rip := before.mem[r.rsp])
    && Env(after.mem, r.rdi) == Expected(before)
    && forall a: u64 | Elsewhere(a, r.rdi) :: after.mem[a] == before.mem[a]
  }

  /** `mem` with the eight words `ws` stored from `env` upwards. */
  function Fill(mem: Cells, env: u64, ws: seq<u64>): Cells
    requires Buffer(env) && |ws| == SLOTS
  {
    mem[env := ws[0]][env + 8 := ws[1]][env + 16 := ws[2]][env + 24 := ws[3]]
       [env + 32 := ws[4]][env + 40 := ws[5]][env + 48 := ws[6]][env + 56 := ws[7]]
  }

  lemma FillIsSaved(mem: Cells, env: u64, ws: seq<u64>)
    requires Buffer(env) && |ws| == SLOTS
    ensures Env(Fill(mem, env, ws), env) == ws
    ensures forall a: u64 | Elsewhere(a, env) :: Fill(mem, env, ws)[a] == mem[a]
  {
  }

  lemma PushedBack(mem: Cells, env: u64, v: u64, w: u64, sp: u64)
    requires Buffer(env) && Elsewhere(sp, env)
    ensures mem[env := v][env + 8 := w][sp := mem[sp]] == mem[env := v][env + 8 := w]
  {
  }

  lemma FilledIsSaved(before: Cpu, after: Cpu)
    requires Conventional(before.r) && after.mem == Fill(before.mem, before.r.rdi, Expected(before))
    requires var r := before.r;
             after.r == r.(rax := 0, rsi := before.mem[r.rsp], rsp := r.rsp + 8, rip := before.mem[r.rsp])
    ensures Saved(before, after)
  {
    hide Env, Fill, Expected, Elsewhere;
    FillIsSaved(before.mem, before.r.rdi, Expected(before));
  }

  /** `longjmp` has loaded everything from the jmp_buf. */
  predicate Restored(before: Cpu, after: Cpu)
    requires Buffer(before.r.rdi)
  {
    && Env(before.mem, before.r.rdi) ==
         [after.r.rbx, after.r.rsp, after.r.rbp, after.r.r12, after.r.r13, after.r.r14, after.r.r15, after.r.rip]
    && after.r.rax == before.r.rsi % 0x1_0000_0000
    && after.r.rsi == before.r.rsi && after.r.rdi == before.r.rdi && after.mem == before.mem
  }

  class Processor {
    var r: CallRegs
    var mem: Cells

    constructor (r: CallRegs, mem: Cells)
      ensures this.r == r && this.mem == mem
    {
      this.r, this.mem := r, mem;
    }

    ghost function View(): Cpu
      reads this
    {
      Cpu(r, mem)
    }

    method Load(a: u64) returns (w: u64)
      ensures w == mem[a]
    {
      w := mem[a];
    }

    method Store(a: u64, w: u64)
      modifies this`mem
      ensures mem == old(mem)[a := w]
    {
      mem := mem[a := w];
    }

    method Pop() returns (w: u64)
      requires r.rsp + 8 < SPACE
      modifies this`r
      ensures w == mem[old(r.rsp)] && r == old(r).(rsp := old(r.rsp) + 8)
    {
      w := Load(r.rsp);
      r := r.(rsp := r.rsp + 8);
    }

    method Push(w: u64)
      requires r.rsp >= 8
      modifies this
      ensures r == old(r).(rsp := old(r.rsp) - 8) && mem == old(mem)[(old(r.rsp) - 8) := w]
    {
      r := r.(rsp := r.rsp - 8);
      Store(r.rsp, w);
    }

    method Setjmp()
      requires Conventional(r)
      modifies this
      ensures Saved(old(View()), View())
    {
      hide Env, Saved, Elsewhere;
      ghost var before := View();
      var rsi := Pop();
      r := r.(rsi := rsi, rax := 0);
      Store(r.rdi, r.rbx);
      Store(r.rdi + 8, r.rsp);
      Push(r.rsi);
      PushedBack(before.mem, r.rdi, r.rbx, before.r.rsp + 8, r.rsp);
      Store(r.rdi + 16, r.rbp);
      Store(r.rdi + 24, r.r12);
      Store(r.rdi + 32, r.r13);
      Store(r.rdi + 40, r.r14);
      Store(r.rdi + 48, r.r15);
      Store(r.rdi + 56, r.rsi);
      assert mem == Fill(before.mem, r.rdi, Expected(before));
      FillIsSaved(before.mem, r.rdi, Expected(before));
      var rip := Pop();
      r := r.(rip := rip);
      FilledIsSaved(before, View());
    }

    method Longjmp()
      requires Buffer(r.rdi)
      modifies this
      ensures Restored(old(View()), View())
    {
      hide Env;
      EnvCells(mem, r.rdi);
      r := r.(rax := r.rsi % 0x1_0000_0000);
      var rbx := Load(r.rdi);
      r := r.(rbx := rbx);
      var rsp := Load(r.rdi + 8);
      r := r.(rsp := rsp);
      var rbp := Load(r.rdi + 16);
      r := r.(rbp := rbp);
      var r12 := Load(r.rdi + 24);
      r := r.(r12 := r12);
      var r13 := Load(r.rdi + 32);
      r := r.(r13 := r13);
      var r14 := Load(r.rdi + 40);
      r := r.(r14 := r14);
      var r15 := Load(r.rdi + 48);
      r := r.(r15 := r15);
      var rip := Load(r.rdi + 56);
      r := r.(rip := rip);
    }

    /** Any stretch of program: stores to memory and changes of registers. */
    method Perform(acts: seq<Act>)
      modifies this
      ensures View() == After(old(View()), acts)
    {
      var k := 0;
      while k < |acts|
        invariant 0 <= k <= |acts|
        invariant After(View(), acts[k..]) == After(old(View()), acts)
      {
        assert acts[k] in acts && acts[k..][1..] == acts[k + 1..];
        match acts[k] {
          case Put(at, w) => Store(at, w);
          case Change(regs) => r := regs;
        }
        k := k + 1;
      }
    }

    /** A program in the manner of jmp1.c: `i` lives in memory at `cell`; each function runs some
        code and jumps back with its number plus one. The code behind the call of `setjmp` is the
        body of the loop, and it is run again only if that is where `longjmp` leaves `rip`. */
    method CallEach(cell: u64, bodies: seq<seq<Act>>) returns (called: seq<nat>)
      requires Conventional(r) && Elsewhere(cell, r.rdi) && Apart(cell, r.rsp)
      requires |bodies| < 0x8000_0000
      requires forall k, a | 0 <= k < |bodies| && a in bodies[k] ::
                 a.Put? ==> Elsewhere(a.at, r.rdi) && Apart(a.at, cell)
      modifies this
      ensures called == seq(|bodies|, k => k)
    {
      hide Env, Saved, Restored, Elsewhere, Apart, After;
      var env := r.rdi;
      called := [];
      Store(cell, 0);
      ghost var call := View();
      Setjmp();
      ghost var back := View();
      SavedElsewhere(call, back, cell);
      var resume, i: nat := r.rip, 0;
      while r.rip == resume
        invariant SameReturn(r, back.r) && Env(mem, env) == Env(back.mem, env)
        invariant i == (mem[cell] as int) + (if r.rax != 0 then 1 else 0)
        invariant i == |called| <= |bodies|
        invariant called == seq(i, k => k)
        decreases |bodies| - i
      {
        if r.rax != 0 {
          var seen := Load(cell);
          StoreKeepsEnv(mem, env, cell, seen + 1);
          Store(cell, seen + 1);
        }
        i := Load(cell);
        if i >= |bodies| {
          break;
        }
        called := called + [i];
        ghost var start := View();
        Perform(bodies[i]);
        RunKeepsEnv(start, bodies[i], env);
        RunKeepsCell(start, bodies[i], cell);
        r := r.(rdi := env, rsi := i + 1);
        ghost var later := View();
        Longjmp();
        ReturnsAgain(call, back, later, View());
        i := i + 1;
      }
    }
  }

  // ----- the layout of a jmp_buf

  /** Where `setjmp` puts what: rbx, the stack pointer after the return, rbp, r12 to r15 and the
      return address, eight bytes each. */
  lemma SavedLayout(before: Cpu, after: Cpu)
    requires Conventional(before.r) && Saved(before, after)
    ensures var (r, e, m) := (before.r, before.r.rdi, after.mem);
            && m[e] == r.rbx && m[e + 8] == r.rsp + 8 && m[e + 16] == r.rbp && m[e + 24] == r.r12
            && m[e + 32] == r.r13 && m[e + 40] == r.r14 && m[e + 48] == r.r15 && m[e + 56] == before.mem[r.rsp]
  {
    EnvCells(after.mem, before.r.rdi);
  }

  /** And where `longjmp` takes it from. */
  lemma RestoredLayout(before: Cpu, after: Cpu)
    requires Buffer(before.r.rdi) && Restored(before, after)
    ensures var (r, e, m) := (after.r, before.r.rdi, before.mem);
            && r.rbx == m[e] && r.rsp == m[e + 8] && r.rbp == m[e + 16] && r.r12 == m[e + 24]
            && r.r13 == m[e + 32] && r.r14 == m[e + 40] && r.r15 == m[e + 48] && r.rip == m[e + 56]
  {
    EnvCells(before.mem, before.r.rdi);
  }

  // ----- between setjmp and longjmp

  datatype Act = Put(at: u64, w: u64) | Change(regs: CallRegs)

  function After(c: Cpu, acts: seq<Act>): Cpu
    decreases |acts|
  {
    if acts == [] then c
    else
      match acts[0]
      case Put(at, w) => After(Cpu(c.r, c.mem[at := w]), acts[1..])
      case Change(regs) => After(Cpu(regs, c.mem), acts[1..])
  }

  lemma StoreKeepsEnv(mem: Cells, env: u64, at: u64, w: u64)
    requires Buffer(env) && Elsewhere(at, env)
    ensures Env(mem[at := w], env) == Env(mem, env)
  {
  }

  lemma SavedElsewhere(call: Cpu, back: Cpu, at: u64)
    requires Conventional(call.r) && Saved(call, back) && Elsewhere(at, call.r.rdi)
    ensures back.r.rax == 0 && back.mem[at] == call.mem[at]
  {
    hide Env, Elsewhere;
  }

  /** A run that stores only outside the jmp_buf keeps it. */
  lemma {:induction false} RunKeepsEnv(c: Cpu, acts: seq<Act>, env: u64)
    requires Buffer(env) && forall a | a in acts :: a.Put? ==> Elsewhere(a.at, env)
    ensures Env(After(c, acts).mem, env) == Env(c.mem, env)
    decreases |acts|
  {
    if acts != [] {
      var a := acts[0];
      assert a in acts;
      var next := if a.Put? then Cpu(c.r, c.mem[a.at := a.w]) else Cpu(a.regs, c.mem);
      assert Env(next.mem, env) == Env(c.mem, env);
      RunKeepsEnv(next, acts[1..], env);
    }
  }

  lemma {:induction false} RunKeepsCell(c: Cpu, acts: seq<Act>, cell: u64)
    requires forall a | a in acts :: a.Put? ==> Apart(a.at, cell)
    ensures After(c, acts).mem[cell] == c.mem[cell]
    decreases |acts|
  {
    if acts != [] {
      var a := acts[0];
      assert a in acts;
      RunKeepsCell(if a.Put? then Cpu(c.r, c.mem[a.at := a.w]) else Cpu(a.regs, c.mem), acts[1..], cell);
    }
  }

  /** With the jmp_buf unchanged, `longjmp` makes `setjmp` return once more: same program counter
      and stack pointer, same preserved registers, and the low half of the value as result. */
  lemma ReturnsAgain(call: Cpu, back: Cpu, later: Cpu, jumped: Cpu)
    requires Conventional(call.r) && Saved(call, back)
    requires later.r.rdi == call.r.rdi && Env(later.mem, call.r.rdi) == Env(back.mem, call.r.rdi)
    requires Restored(later, jumped)
    ensures SameReturn(jumped.r, back.r) && jumped.r.rsp == call.r.rsp + 8 && jumped.mem == later.mem
    ensures back.r.rax == 0 && jumped.r.rax == later.r.rsi % 0x1_0000_0000
  {
    var s, t := Expected(call), Env(later.mem, call.r.rdi);
    assert forall k :: 0 <= k < SLOTS ==> s[k] == t[k];
  }

  /** For every run between the two calls, however deep, that leaves the jmp_buf alone. */
  lemma JumpReturnsToSetjmp(call: Cpu, back: Cpu, acts: seq<Act>, jumped: Cpu)
    requires Conventional(call.r) && Saved(call, back)
    requires forall a | a in acts :: a.Put? ==> Elsewhere(a.at, call.r.rdi)
    requires After(back, acts).r.rdi == call.r.rdi && Restored(After(back, acts), jumped)
    ensures SameReturn(jumped.r, back.r) && jumped.r.rsp == call.r.rsp + 8
    ensures jumped.r.rax == After(back, acts).r.rsi % 0x1_0000_0000
    ensures jumped.mem == After(back, acts).mem
  {
    RunKeepsEnv(back, acts, call.r.rdi);
    ReturnsAgain(call, back, After(back, acts), jumped);
  }

  /** What ISO C11 section 7.13.2.1 asks `setjmp` to appear to return: the value, or 1 for 0. */
  function Required(v: u64): u64 {
    if v == 0 then 1 else v
  }

  /** The code does not turn 0 into 1. It meets the standard exactly for the other values. */
  lemma ConformsUnlessZero(call: Cpu, back: Cpu, later: Cpu, jumped: Cpu)
    requires Conventional(call.r) && Saved(call, back)
    requires later.r.rdi == call.r.rdi && Env(later.mem, call.r.rdi) == Env(back.mem, call.r.rdi)
    requires Restored(later, jumped)
    ensures jumped.r.rax == Required(later.r.rsi % 0x1_0000_0000) <==> later.r.rsi % 0x1_0000_0000 != 0
    ensures jumped.r.rax == back.r.rax <==> later.r.rsi % 0x1_0000_0000 == 0
  {
    ReturnsAgain(call, back, later, jumped);
  }
}
