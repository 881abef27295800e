/** Splitting a command line into words. */
module Tokenizer {

  /** The position of `c` in `s` at or after `from`; the length of `s` when there is none. */
  function Find(s: string, c: char, from: nat): (i: nat)
    requires from <= |s|
    ensures from <= i <= |s| && c !in s[from..i] && (i < |s| ==> s[i] == c)
    decreases |s| - from
  {
    if from == |s| || s[from] == c then from
    else
      var i := Find(s, c, from + 1);
      assert s[from..i] == [s[from]] + s[from + 1..i];
      i
  }

  /** Everything between delimiters, empty pieces included. */
  function Split(s: string, d: char): (ws: seq<string>)
    ensures |ws| >= 1
  {
    var i := Find(s, d, 0);
    if i == |s| then [s] else [s[..i]] + Split(s[i + 1..], d)
  }

  function DropEmpty(ws: seq<string>): seq<string> {
    if ws == [] then []
    else (if ws[0] == "" then [] else [ws[0]]) + DropEmpty(ws[1..])
  }

  /** The pieces without the empty ones, except that the last piece always stays. */
  function Parse(s: string, d: char): (ws: seq<string>)
    ensures |ws| >= 1
  {
    var ps := Split(s, d);
    DropEmpty(ps[..|ps| - 1]) + [ps[|ps| - 1]]
  }

  lemma SplitHead(s: string, d: char)
    ensures var i := Find(s, d, 0);
            Parse(s, d) == if i == |s| then [s]
                           else (if i == 0 then [] else [s[..i]]) + Parse(s[i + 1..], d)
  {
    hide Find, DropEmpty;
    var i := Find(s, d, 0);
    if i < |s| {
      ParseCons(s[..i], Split(s[i + 1..], d));
    } else {
      assert Split(s, d)[..0] == [] && DropEmpty([]) == [] by {
        NothingToDrop();
      }
    }
  }

  lemma NothingToDrop()
    ensures DropEmpty([]) == []
  {
  }

  lemma ParseCons(w: string, rest: seq<string>)
    requires |rest| >= 1
    ensures var (ps, n) := ([w] + rest, |rest|);
            DropEmpty(ps[..n]) + [ps[n]] == (if w == "" then [] else [w]) + (DropEmpty(rest[..n - 1]) + [rest[n - 1]])
  {
    var ps := [w] + rest;
    assert ps[..|rest|] == [w] + rest[..|rest| - 1];
    assert ps[..|rest|][1..] == rest[..|rest| - 1];
  }

  method ParseLine(line: string, delimiter: char) returns (result: seq<string>)
    ensures result == Parse(line, delimiter)
  {
    hide Parse, Find;
    var pos1 := 0;
    result := [];
    assert line[0..] == line;
    var pos2 := Find(line, delimiter, pos1);
    while pos2 < |line|
      invariant 0 <= pos1 <= |line| && pos2 == Find(line, delimiter, pos1)
      invariant Parse(line, delimiter) == result + Parse(line[pos1..], delimiter)
      decreases |line| - pos1
    {
      FindShift(line, delimiter, pos1);
      SplitHead(line[pos1..], delimiter);
      assert line[pos1..][pos2 - pos1 + 1..] == line[pos2 + 1..];
      var word := line[pos1..pos2];
      assert word == line[pos1..][..pos2 - pos1];
      if word == "" {
        pos1 := pos1 + 1;
      } else {
        ghost var rest := Parse(line[pos2 + 1..], delimiter);
        assert result + ([word] + rest) == (result + [word]) + rest;
        result := result + [word];
        pos1 := pos2 + 1;
      }
      pos2 := Find(line, delimiter, pos1);
    }
    FindShift(line, delimiter, pos1);
    SplitHead(line[pos1..], delimiter);
    result := result + [line[pos1..]];
  }

  lemma {:induction false} FindUnique(s: string, c: char, from: nat, i: nat)
    requires from <= i <= |s| && c !in s[from..i] && (i < |s| ==> s[i] == c)
    ensures Find(s, c, from) == i
  {
    var k := Find(s, c, from);
    assert forall j :: from <= j < i ==> s[from..i][j - from] == s[j];
    assert forall j :: from <= j < k ==> s[from..k][j - from] == s[j];
  }

  lemma FindShift(s: string, c: char, from: nat)
    requires from <= |s|
    ensures Find(s[from..], c, 0) == Find(s, c, from) - from
  {
    var i := Find(s, c, from);
    assert s[from..][0..i - from] == s[from..i];
    FindUnique(s[from..], c, 0, i - from);
  }

  // ----- what the words are

  predicate Word(w: string, d: char) {
    d !in w
  }

  /** What a parsed line looks like: words without the delimiter, none of them empty but perhaps
      the last. */
  predicate WellFormed(ws: seq<string>, d: char) {
    && |ws| >= 1
    && (forall w | w in ws :: Word(w, d))
    && (forall k | 0 <= k < |ws| - 1 :: ws[k] != "")
  }

  lemma {:induction false} ParseIsWellFormed(s: string, d: char)
    ensures WellFormed(Parse(s, d), d)
    decreases |s|
  {
    hide Parse, Find;
    SplitHead(s, d);
    var i := Find(s, d, 0);
    assert s[0..i] == s[..i];
    if i < |s| {
      ParseIsWellFormed(s[i + 1..], d);
      WellFormedCons(s[..i], Parse(s[i + 1..], d), d);
    } else {
      assert s[..i] == s;
    }
  }

  lemma WellFormedCons(w: string, ws: seq<string>, d: char)
    requires Word(w, d) && WellFormed(ws, d)
    ensures w != "" ==> WellFormed([w] + ws, d)
  {
  }

  function Join(ws: seq<string>, d: char): string
    requires |ws| >= 1
  {
    if |ws| == 1 then ws[0] else ws[0] + [d] + Join(ws[1..], d)
  }

  /** Parsing undoes joining, on exactly the lists that parsing can produce. */
  lemma {:induction false} JoinThenParse(ws: seq<string>, d: char)
    requires |ws| >= 1
    ensures Parse(Join(ws, d), d) == ws <==> WellFormed(ws, d)
    decreases |ws|
  {
    if WellFormed(ws, d) {
      JoinParses(ws, d);
    } else {
      ParseIsWellFormed(Join(ws, d), d);
    }
  }

  lemma {:induction false} JoinParses(ws: seq<string>, d: char)
    requires WellFormed(ws, d)
    ensures Parse(Join(ws, d), d) == ws
    decreases |ws|
  {
    hide Find, Parse;
    var s := Join(ws, d);
    assert Word(ws[0], d);
    if |ws| == 1 {
      assert s[0..|s|] == s;
      FindUnique(s, d, 0, |s|);
      SplitHead(s, d);
    } else {
      var n := |ws[0]|;
      assert s[0..n] == ws[0] && s[n] == d && s[n + 1..] == Join(ws[1..], d) && s[..n] == ws[0];
      FindUnique(s, d, 0, n);
      SplitHead(s, d);
      JoinParses(ws[1..], d);
    }
  }
}
