/** What a line of text means: which command its first word chooses, and what its arguments say. */
module CommandLine {
  import opened Words
  import opened Tracee
  import opened Commands
  import Tokenizer
  import opened Session

  // ----- the first word

  /** One line and the rest of a script. The first word alone chooses the command, `exit` and `q`
      end the session whatever follows, and every word that is none of these chooses no command
      that acts on the debugger or the process. */
  lemma FirstWordDecides(line: string, rest: seq<string>, files: Files)
    ensures var (ws, s) := (Tokenizer.Parse(line, ' '), Script([line] + rest, files));
            var w := ws[0];
            if w == "exit" || w == "q" then s == []
            else
              && |s| >= 1 && s[1..] == Script(rest, files)
              && (s[0].Load? <==> w == "load")
              && (s[0].Start? <==> w == "start")
              && (s[0].Cont? <==> w == "cont" || w == "c")
              && (s[0].Break? <==> w == "break" || w == "b")
              && (s[0].Si? <==> w == "si")
              && (s[0].Delete? <==> w == "delete" || w == "del")
              && (s[0].SetReg? <==> w == "set" || w == "s")
              && (s[0].Disasm? <==> w == "disasm" || w == "d")
              && (s[0].Run? <==> w == "run" || w == "r")
  {
    hide FileArgument, AddrArgument, IndexArgument, TargetArgument, ValueArgument;
    var lines := [line] + rest;
    assert lines[0] == line && lines[1..] == rest;
    LineWords(line);
  }

  /** The second word is the argument, and a missing one is no argument; `set` needs a third. */
  lemma NextWordsAreArguments(line: string, files: Files)
    requires Script([line], files) != []
    ensures var (ws, c) := (Tokenizer.Parse(line, ' '), Script([line], files)[0]);
            && (c.Load? ==> c.file == if |ws| >= 2 && ws[1] in files then Some(files[ws[1]]) else None)
            && (c.Break? ==> c.at == if |ws| >= 2 then Some(Strtol(ws[1])) else None)
            && (c.Disasm? ==> c.at == if |ws| >= 2 then Some(Strtol(ws[1])) else None)
            && (c.Delete? ==> c.index == if |ws| >= 2 then Some(Atoi(ws[1])) else None)
            && (c.SetReg? && |ws| < 3 ==> c.target == None)
            && (c.SetReg? && |ws| >= 3 ==> c.target == TargetOf(ws[1]) && c.value == Strtol(ws[2]) as word)
  {
    hide Strtol, Atoi, TargetOf;
    LineWords(line);
    assert [line][0] == line;
  }

  /** A line made of proper words means those words. */
  lemma LineOfWords(ws: seq<string>)
    requires Tokenizer.WellFormed(ws, ' ')
    ensures Tokenizer.Parse(Tokenizer.Join(ws, ' '), ' ') == ws
  {
    Tokenizer.JoinParses(ws, ' ');
  }

  // ----- register names

  lemma {:induction false} RegIndexFinds(name: string, i: nat)
    requires i <= 16
    ensures match RegIndex(name, i)
            case Some(t) => t.Gp? && i <= t.r && REGISTERS[t.r] == name
            case None => forall k | i <= k < 16 :: REGISTERS[k] != name
    decreases 16 - i
  {
    if i < 16 && REGISTERS[i] != name {
      RegIndexFinds(name, i + 1);
    }
  }

  /** Each name reaches its own register, numbered as the AMD64 manual numbers them, and no other
      name reaches any. */
  lemma RegisterNames(name: string)
    ensures match TargetOf(name)
            case Some(Gp(i)) =>
              name == (match i
                       case 0 => "rax" case 1 => "rcx" case 2 => "rdx" case 3 => "rbx"
                       case 4 => "rsp" case 5 => "rbp" case 6 => "rsi" case 7 => "rdi"
                       case 8 => "r8" case 9 => "r9" case 10 => "r10" case 11 => "r11"
                       case 12 => "r12" case 13 => "r13" case 14 => "r14" case _ => "r15")
            case Some(Rip) => name == "rip"
            case Some(Flags) => name == "flags"
            case None =>
              name !in {"rax", "rcx", "rdx", "rbx", "rsp", "rbp", "rsi", "rdi", "r8", "r9", "r10", "r11", "r12",
                        "r13", "r14", "r15", "rip", "flags"}
  {
    hide RegIndex;
    RegIndexFinds(name, 0);
    assert REGISTERS[0] == "rax" && REGISTERS[1] == "rcx" && REGISTERS[2] == "rdx" && REGISTERS[3] == "rbx";
    assert REGISTERS[4] == "rsp" && REGISTERS[5] == "rbp" && REGISTERS[6] == "rsi" && REGISTERS[7] == "rdi";
    assert REGISTERS[8] == "r8" && REGISTERS[9] == "r9" && REGISTERS[10] == "r10" && REGISTERS[11] == "r11";
    assert REGISTERS[12] == "r12" && REGISTERS[13] == "r13" && REGISTERS[14] == "r14" && REGISTERS[15] == "r15";
  }

  // ----- numbers

  const LOWER: string := "0123456789abcdef"
  const UPPER: string := "0123456789ABCDEF"

  lemma DivideAndRemain(n: nat, base: nat)
    requires 2 <= base <= n
    ensures n / base * base + n % base == n && 0 < n / base < n && 0 <= n % base < base
  {
  }

  /** The digits of `n` to a base, taken from an alphabet. */
  function Numeral(n: nat, base: nat, alphabet: string): (s: string)
    requires 2 <= base <= |alphabet|
    ensures s != ""
  {
    if n < base then [alphabet[n]]
    else
      DivideAndRemain(n, base);
      Numeral(n / base, base, alphabet) + [alphabet[n % base]]
  }

  /** Sixteen digits that read as 0 to 15. */
  predicate Alphabet(alphabet: string) {
    |alphabet| == 16 && forall k | 0 <= k < 16 :: Digit(alphabet[k]) == k
  }

  lemma Alphabets()
    ensures Alphabet(LOWER) && Alphabet(UPPER)
  {
  }

  /** What follows a number: nothing, or something that is no digit to the base. */
  predicate Ends(t: string, base: nat) { t == "" || Digit(t[0]) >= base }

  lemma {:induction false} DigitsOfNumeral(n: nat, base: nat, alphabet: string, t: string)
    requires Alphabet(alphabet) && 2 <= base <= 16
    ensures Digits(Numeral(n, base, alphabet) + t, base, 0) == Digits(t, base, n)
    decreases n
  {
    hide Digit;
    if n < base {
      assert (Numeral(n, base, alphabet) + t)[1..] == t;
    } else {
      DivideAndRemain(n, base);
      var c := alphabet[n % base];
      DigitsOfNumeral(n / base, base, alphabet, [c] + t);
      assert Numeral(n, base, alphabet) + t == Numeral(n / base, base, alphabet) + ([c] + t);
      assert ([c] + t)[1..] == t;
    }
  }

  lemma {:induction false} LeadingDigit(n: nat, base: nat, alphabet: string)
    requires Alphabet(alphabet) && 2 <= base <= 16
    ensures var s := Numeral(n, base, alphabet);
            Digit(s[0]) < base && (n > 0 ==> Digit(s[0]) > 0)
    decreases n
  {
    hide Digit;
    if n < base {
    } else {
      DivideAndRemain(n, base);
      LeadingDigit(n / base, base, alphabet);
      assert Numeral(n, base, alphabet)[0] == Numeral(n / base, base, alphabet)[0];
    }
  }

  /** Decimal text without a leading zero, and hexadecimal text behind 0x or 0X, in either case of
      letters, stand for the number they show, whatever follows that is no digit. */
  lemma DecimalMagnitude(n: nat, t: string, anyBase: bool)
    requires Ends(t, 10) && (anyBase ==> n > 0)
    ensures Magnitude(Numeral(n, 10, LOWER) + t, anyBase) == n
  {
    hide Digits;
    Alphabets();
    LeadingDigit(n, 10, LOWER);
    DigitsOfNumeral(n, 10, LOWER, t);
    DigitsEnd(t, 10, n);
  }

  lemma DigitsEnd(t: string, base: nat, n: nat)
    requires Ends(t, base)
    ensures Digits(t, base, n) == n
  {
  }

  lemma HexMagnitude(n: nat, x: char, alphabet: string, t: string)
    requires Alphabet(alphabet) && x in "xX" && Ends(t, 16)
    ensures Magnitude("0" + [x] + Numeral(n, 16, alphabet) + t, true) == n
  {
    hide Digits, Digit, Numeral;
    var s := Numeral(n, 16, alphabet) + t;
    var u := "0" + [x] + Numeral(n, 16, alphabet) + t;
    LeadingDigit(n, 16, alphabet);
    DigitsOfNumeral(n, 16, alphabet, t);
    DigitsEnd(t, 16, n);
    assert u[2..] == s && u[2] == s[0] && u[0] == '0' && u[1] == x;
  }

  lemma OctalMagnitude(n: nat, t: string)
    requires Ends(t, 8) && n > 0
    ensures Magnitude("0" + Numeral(n, 8, LOWER) + t, true) == n
  {
    hide Digits, Numeral;
    var s := Numeral(n, 8, LOWER) + t;
    var u := "0" + Numeral(n, 8, LOWER) + t;
    Alphabets();
    LeadingDigit(n, 8, LOWER);
    DigitsOfNumeral(n, 8, LOWER, t);
    DigitsEnd(t, 8, n);
    assert u[1..] == s && u[0] == '0' && u[1] == s[0];
    ZeroFirst(u);
  }

  lemma ZeroFirst(u: string)
    requires u != "" && u[0] == '0'
    ensures Digits(u, 8, 0) == Digits(u[1..], 8, 0)
  {
  }

  datatype Sign = Unsigned | Plus | Minus
  {
    function Text(): string { match this case Unsigned => "" case Plus => "+" case Minus => "-" }
    function Of(n: nat): int { if Minus? then -(n as int) else n }
  }

  /** A sign in front of digits counts. */
  lemma SignCounts(sign: Sign, u: string, anyBase: bool)
    requires u != "" && '0' <= u[0] <= '9'
    ensures Number(sign.Text() + u, anyBase) == sign.Of(Magnitude(u, anyBase))
  {
    hide Magnitude;
    var s := sign.Text() + u;
    assert SkipBlanks(s) == s;
    if sign.Unsigned? {
      assert s == u;
    } else {
      assert s[1..] == u;
    }
  }

  /** White space in front of a number does not. */
  lemma BlanksDoNot(c: char, s: string, anyBase: bool)
    requires c == ' ' || 9 <= c as int <= 13
    ensures Number([c] + s, anyBase) == Number(s, anyBase)
  {
    hide Magnitude;
    assert ([c] + s)[1..] == s;
  }

  lemma StartsWithDigit(n: nat, base: nat, t: string)
    requires 2 <= base <= 10
    ensures '0' <= (Numeral(n, base, LOWER) + t)[0] <= '9'
  {
    hide Numeral;
    Alphabets();
    LeadingDigit(n, base, LOWER);
  }

  /** `strtol` with base 0 as the debugger uses it: hexadecimal, octal or decimal text reads back as
      its number, cut to the range of a signed long and then taken as unsigned. */
  lemma StrtolReads(sign: Sign, n: nat, x: char, alphabet: string, t: string)
    requires (alphabet == LOWER || alphabet == UPPER) && x in "xX"
    ensures var v := sign.Of(n);
            var cut: int := if v > 0x7fff_ffff_ffff_ffff then 0x7fff_ffff_ffff_ffff
                            else if v < -0x8000_0000_0000_0000 then -0x8000_0000_0000_0000 else v;
            && (Ends(t, 16) ==>
                  Strtol(sign.Text() + ("0" + [x] + Numeral(n, 16, alphabet) + t)) == cut % 0x1_0000_0000_0000_0000)
            && (Ends(t, 8) && n > 0 ==>
                  Strtol(sign.Text() + ("0" + Numeral(n, 8, LOWER) + t)) == cut % 0x1_0000_0000_0000_0000)
            && (Ends(t, 10) && n > 0 ==>
                  Strtol(sign.Text() + (Numeral(n, 10, LOWER) + t)) == cut % 0x1_0000_0000_0000_0000)
  {
    hide Magnitude, Number, Numeral, Digit;
    Alphabets();
    if Ends(t, 16) {
      HexMagnitude(n, x, alphabet, t);
      SignCounts(sign, "0" + [x] + Numeral(n, 16, alphabet) + t, true);
    }
    if Ends(t, 8) && n > 0 {
      OctalMagnitude(n, t);
      SignCounts(sign, "0" + Numeral(n, 8, LOWER) + t, true);
    }
    if Ends(t, 10) && n > 0 {
      DecimalMagnitude(n, t, true);
      StartsWithDigit(n, 10, t);
      SignCounts(sign, Numeral(n, 10, LOWER) + t, true);
    }
  }

  /** `atoi` as the debugger uses it: decimal text reads back as its number where that is an `int`. */
  lemma AtoiReads(sign: Sign, n: nat, t: string)
    requires Ends(t, 10)
    ensures var (v, r) := (sign.Of(n), Atoi(sign.Text() + (Numeral(n, 10, LOWER) + t)));
            && -0x8000_0000 <= r <= 0x7fff_ffff
            && (-0x8000_0000 <= v <= 0x7fff_ffff ==> r == v)
            && (-0x8000_0000_0000_0000 <= v <= 0x7fff_ffff_ffff_ffff ==> (r - v) % 0x1_0000_0000 == 0)
  {
    hide Magnitude, Number, Numeral, Digit;
    DecimalMagnitude(n, t, false);
    StartsWithDigit(n, 10, t);
    SignCounts(sign, Numeral(n, 10, LOWER) + t, false);
  }
}
