/** The command loop: lines of text drive the debugger. */
module Session {
  import opened Words
  import opened Tracee
  import opened BreakpointTable
  import opened Commands
  import Tokenizer
  import opened Debugger

  /** Files by path; a path that is not here cannot be read as an ELF file. */
  type Files = map<string, Elf>

  // ----- numbers on the command line

  function Digit(c: char): nat {
    if '0' <= c <= '9' then (c - '0') as nat
    else if 'a' <= c <= 'f' then 10 + (c - 'a') as nat
    else if 'A' <= c <= 'F' then 10 + (c - 'A') as nat
    else 36
  }

  function Digits(s: string, base: nat, soFar: nat): nat
    decreases |s|
  {
    if s == "" || Digit(s[0]) >= base then soFar else Digits(s[1..], base, soFar * base + Digit(s[0]))
  }

  function SkipBlanks(s: string): string {
    if s != "" && (s[0] == ' ' || '\t' <= s[0] <= '\r') then SkipBlanks(s[1..]) else s
  }

  /** Decimal digits, or, for base 0, octal after 0 and hexadecimal after 0x. */
  function Magnitude(u: string, anyBase: bool): nat {
    var hex := anyBase && |u| > 2 && u[0] == '0' && u[1] in "xX" && Digit(u[2]) < 16;
    if hex then Digits(u[2..], 16, 0)
    else Digits(u, if anyBase && u != "" && u[0] == '0' then 8 else 10, 0)
  }

  /** The value before a number is cut to size: blanks, a sign, and digits. */
  function Number(s: string, anyBase: bool): int {
    var t := SkipBlanks(s);
    var n := Magnitude(if t != "" && t[0] in "+-" then t[1..] else t, anyBase);
    if t != "" && t[0] == '-' then -(n as int) else n
  }

  const LONG_MAX: int := 0x7fff_ffff_ffff_ffff

  /** `strtol` with base 0, converted to unsigned long long. */
  function Strtol(s: string): Addr {
    var n := Number(s, true);
    Wrap(if n > LONG_MAX then LONG_MAX else if n < -LONG_MAX - 1 then -LONG_MAX - 1 else n)
  }

  /** `atoi`: `strtol` with base 10, cut to 32 bits. */
  function Atoi(s: string): int {
    var n := Number(s, false);
    var m := (if n > LONG_MAX then LONG_MAX else if n < -LONG_MAX - 1 then -LONG_MAX - 1 else n) % 0x1_0000_0000;
    if m < 0x8000_0000 then m else m - 0x1_0000_0000
  }

  // ----- words to commands

  const REGISTERS: seq<string> :=
    ["rax", "rcx", "rdx", "rbx", "rsp", "rbp", "rsi", "rdi", "r8", "r9", "r10", "r11", "r12", "r13", "r14", "r15"]

  function RegIndex(name: string, i: nat): Option<Target>
    requires i <= 16
    decreases 16 - i
  {
    if i == 16 then None else if REGISTERS[i] == name then Some(Gp(i)) else RegIndex(name, i + 1)
  }

  function TargetOf(name: string): Option<Target> {
    if name == "rip" then Some(Rip) else if name == "flags" then Some(Flags) else RegIndex(name, 0)
  }

  function Argument(words: seq<string>): Option<string> {
    if |words| < 2 then None else Some(words[1])
  }

  function AddrArgument(words: seq<string>): Option<Addr> {
    var a := Argument(words);
    if a.None? then None else Some(Strtol(a.value))
  }

  /** The file named by the argument, if it can be read. */
  function FileArgument(words: seq<string>, files: Files): Option<Elf> {
    var arg := Argument(words);
    if arg.Some? && arg.value in files then Some(files[arg.value]) else None
  }

  function IndexArgument(words: seq<string>): Option<int> {
    var arg := Argument(words);
    if arg.None? then None else Some(Atoi(arg.value))
  }

  /** The register and the value of a `set`; without both there is no register. */
  function TargetArgument(words: seq<string>): Option<Target> {
    if |words| < 3 then None else TargetOf(words[1])
  }

  function ValueArgument(words: seq<string>): word {
    if |words| < 3 then 0 else WordOf(Strtol(words[2]))
  }

  predicate IsExit(words: seq<string>) {
    words != [] && (words[0] == "exit" || words[0] == "q")
  }

  /** What a line that is not `exit` asks for. */
  function CommandOf(words: seq<string>, files: Files): Command
    requires words != []
  {
    var w := words[0];
    if w == "load" then Command.Load(FileArgument(words, files))
    else if w == "start" then Start
    else if w == "cont" || w == "c" then Cont
    else if w == "break" || w == "b" then Break(AddrArgument(words))
    else if w == "si" then Si
    else if w == "delete" || w == "del" then Delete(IndexArgument(words))
    else if w == "set" || w == "s" then SetReg(TargetArgument(words), ValueArgument(words))
    else if w == "disasm" || w == "d" then Disasm(AddrArgument(words))
    else if w == "run" || w == "r" then Run
    else Show
  }

  function WordsOf(line: string): (ws: seq<string>)
    ensures ws != []
  {
    Tokenizer.Parse(line, ' ')
  }

  /** The commands of a script, up to the first `exit`. */
  function Script(lines: seq<string>, files: Files): seq<Command> {
    if lines == [] || IsExit(WordsOf(lines[0])) then []
    else [CommandOf(WordsOf(lines[0]), files)] + Script(lines[1..], files)
  }

  // ----- the loop

  /** One line that is not `exit`: its first word chooses the command. */
  method RunLine(dbg: Debugger, words: seq<string>, files: Files, fuel: nat) returns (returned: bool)
    requires dbg.Valid() && words != []
    modifies dbg, dbg.pid, dbg.bptab
    ensures dbg.Valid() && (dbg.pid == null || dbg.pid == old(dbg.pid) || fresh(dbg.pid))
    ensures returned <==> Exec(old(dbg.View()), CommandOf(words, files), fuel).Some?
    ensures returned ==> dbg.View() == Exec(old(dbg.View()), CommandOf(words, files), fuel).value
  {
    hide DoLoad, DoStart, DoSi, DoCont, DoRun, DoBreak, DoDelete, DoSetReg, DoDisasm;
    hide FileArgument, IndexArgument, TargetArgument, ValueArgument, AddrArgument;
    hide Debugger.View, Debugger.Valid;
    returned := true;
    var w := words[0];
    if w == "load" {
      dbg.Load(FileArgument(words, files));
    } else if w == "start" {
      dbg.Start();
    } else if w == "cont" || w == "c" {
      returned := dbg.Cont(fuel);
    } else if w == "break" || w == "b" {
      dbg.SetBreakPoint(AddrArgument(words));
    } else if w == "si" {
      dbg.StepIn();
    } else if w == "delete" || w == "del" {
      dbg.DeleteBreakPoint(IndexArgument(words));
    } else if w == "set" || w == "s" {
      dbg.SetReg(TargetArgument(words), ValueArgument(words));
    } else if w == "disasm" || w == "d" {
      dbg.Disasm(AddrArgument(words));
    } else if w == "run" || w == "r" {
      returned := dbg.Run(fuel);
    }
  }

  /** Read lines until `exit` or the end. The debugger ends up where the commands of the script
      take it; `returned` is false when one of them is still waiting for the process. */
  method Interact(dbg: Debugger, lines: seq<string>, files: Files, fuel: nat) returns (returned: bool)
    requires dbg.Valid()
    modifies dbg, dbg.pid, dbg.bptab
    ensures returned <==> ExecAll(old(dbg.View()), Script(lines, files), fuel).Some?
    ensures returned ==> dbg.Valid() && dbg.View() == ExecAll(old(dbg.View()), Script(lines, files), fuel).value
  {
    hide Exec, CommandOf, WordsOf;
    var i := 0;
    assert lines[0..] == lines;
    while i < |lines|
      invariant 0 <= i <= |lines|
      invariant dbg.Valid() && (dbg.pid == null || dbg.pid == old(dbg.pid) || fresh(dbg.pid))
      invariant ExecAll(old(dbg.View()), Script(lines, files), fuel) == ExecAll(dbg.View(), Script(lines[i..], files), fuel)
    {
      var words := Tokenizer.ParseLine(lines[i], ' ');
      assert words == WordsOf(lines[i]) by {
        LineWords(lines[i]);
      }
      ScriptHead(lines[i..], files);
      assert lines[i..][1..] == lines[i + 1..];
      var w := words[0];
      if w == "exit" || w == "q" {
        return true;
      }
      ExecHead(dbg.View(), CommandOf(words, files), Script(lines[i + 1..], files), fuel);
      var ok := RunLine(dbg, words, files, fuel);
      if !ok {
        return false;
      }
      i := i + 1;
    }
    return true;
  }

  /** A program named on the shell's command line is loaded first. */
  method Sdb(path: string, lines: seq<string>, files: Files, fuel: nat) returns (dbg: Debugger, returned: bool)
    ensures var first := if path == "" then [] else [Command.Load(FileArgument(WordsOf("load " + path), files))];
            && fresh(dbg)
            && (returned <==> ExecAll(INITIAL, first + Script(lines, files), fuel).Some?)
            && (returned ==> dbg.Valid() && dbg.View() == ExecAll(INITIAL, first + Script(lines, files), fuel).value)
  {
    hide DoLoad, DoStart, DoSi, DoCont, DoRun, DoBreak, DoDelete, DoSetReg, DoDisasm;
    hide Script, WordsOf, FileArgument, ExecAll;
    dbg := new Debugger();
    if path != "" {
      var words := Tokenizer.ParseLine("load " + path, ' ');
      LineWords("load " + path);
      ExecHead(INITIAL, Command.Load(FileArgument(words, files)), Script(lines, files), fuel);
      dbg.Load(FileArgument(words, files));
    } else {
      assert [] + Script(lines, files) == Script(lines, files);
    }
    returned := Interact(dbg, lines, files, fuel);
  }

  lemma LineWords(line: string)
    ensures WordsOf(line) == Tokenizer.Parse(line, ' ')
  {
  }

  lemma ScriptHead(lines: seq<string>, files: Files)
    requires lines != []
    ensures Script(lines, files) == if IsExit(WordsOf(lines[0])) then []
                                    else [CommandOf(WordsOf(lines[0]), files)] + Script(lines[1..], files)
  {
  }

  lemma ExecHead(d: Dbg, c: Command, cs: seq<Command>, fuel: nat)
    ensures ExecAll(d, [c] + cs, fuel) ==
            if Exec(d, c, fuel).None? then None else ExecAll(Exec(d, c, fuel).value, cs, fuel)
  {
    hide Exec;
    assert ([c] + cs)[1..] == cs;
  }
}
