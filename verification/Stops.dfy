/** Where `cont` and `si` stop, in terms of positions on the unpatched execution. */
module Stops {
  import opened Words
  import opened Tracee
  import opened BreakpointTable
  import opened Commands
  import opened Observer
  import opened Refinement
  import opened Sessions

  /** Position `j` of the execution from `u` exists and stands on an address of `b`. */
  ghost predicate StopAt(u: Machine, b: set<Addr>, j: nat) {
    Steps(u, j) != [] && Steps(u, j)[0].regs.rip in b
  }

  /** `j` is the least such position not below `from`. */
  ghost predicate NextStop(u: Machine, b: set<Addr>, from: nat, j: nat) {
    from <= j && StopAt(u, b, j) && forall i | from <= i < j :: !StopAt(u, b, i)
  }

  /** The execution from `u` ends by itself before any stop at or after `from`. */
  ghost predicate EndsFirst(u: Machine, b: set<Addr>, from: nat, n: nat) {
    Steps(u, n) != [] && !Step(Steps(u, n)[0]).Next? && forall i | from <= i <= n :: !StopAt(u, b, i)
  }

  lemma StepsShift(u: Machine, n: nat)
    requires n > 0
    ensures Steps(u, n) == if Step(u).Next? then Steps(Step(u).m, n - 1) else []
  {
    hide Step;
  }

  lemma {:induction false} StepsCut(u: Machine, n: nat, i: nat)
    requires Steps(u, n) != [] && i <= n
    ensures Steps(u, i) != [] && (i < n ==> Step(Steps(u, i)[0]).Next?)
    decreases i
  {
    hide Step;
    if i > 0 {
      StepsCut(Step(u).m, n - 1, i - 1);
    }
  }

  lemma StopShift(u: Machine, b: set<Addr>, j: nat)
    requires Step(u).Next? && j > 0
    ensures StopAt(u, b, j) <==> StopAt(Step(u).m, b, j - 1)
  {
    hide Step;
    StepsShift(u, j);
  }

  lemma NextStopShift(u: Machine, b: set<Addr>, from: nat, j: nat)
    requires Step(u).Next? && j > 0 && (from > 0 || !StopAt(u, b, 0))
    requires NextStop(Step(u).m, b, if from > 0 then from - 1 else 0, j - 1)
    ensures NextStop(u, b, from, j)
  {
    hide Step, StopAt;
    StopShift(u, b, j);
    forall i | from <= i < j
      ensures !StopAt(u, b, i)
    {
      if i > 0 {
        StopShift(u, b, i);
      }
    }
  }

  /** `RunUntil` finds the least position on a breakpoint, starting with the present one. */
  lemma {:induction false} RunUntilStops(u: Machine, b: set<Addr>, fuel: nat) returns (n: nat)
    ensures var w := RunUntil(u, b, fuel);
            && (w.Stopped? ==> NextStop(u, b, 0, n) && Steps(u, n) == [w.m])
            && (w.Gone? ==> EndsFirst(u, b, 0, n))
    decreases fuel
  {
    hide Step;
    n := 0;
    if fuel > 0 && u.regs.rip !in b && Step(u).Next? {
      var v := Step(u).m;
      var k := RunUntilStops(v, b, fuel - 1);
      n := k + 1;
      StepsShift(u, n);
      if RunUntil(u, b, fuel).Stopped? {
        NextStopShift(u, b, 0, n);
      } else if RunUntil(u, b, fuel).Gone? {
        forall i | 0 <= i <= n
          ensures !StopAt(u, b, i)
        {
          if i > 0 {
            StopShift(u, b, i);
          }
        }
      }
    }
  }

  /** And it does find it, when there is one. */
  lemma {:induction false} RunUntilReaches(u: Machine, b: set<Addr>, n: nat, fuel: nat)
    requires NextStop(u, b, 0, n) && fuel > n
    ensures RunUntil(u, b, fuel) == Stopped(Steps(u, n)[0])
    decreases n
  {
    hide Step;
    if n > 0 {
      assert !StopAt(u, b, 0);
      StepsShift(u, n);
      var v := Step(u).m;
      StopShift(u, b, n);
      forall i | 0 <= i < n - 1
        ensures !StopAt(v, b, i)
      {
        StopShift(u, b, i + 1);
      }
      RunUntilReaches(v, b, n - 1, fuel - 1);
    }
  }

  lemma EndShift(u: Machine, b: set<Addr>, from: nat, n: nat)
    requires n > 0 && EndsFirst(u, b, from, n)
    ensures Step(u).Next? && EndsFirst(Step(u).m, b, if from > 0 then from - 1 else 0, n - 1)
  {
    hide Step, StopAt;
    StepsShift(u, n);
    var v, low := Step(u).m, if from > 0 then from - 1 else 0;
    forall i | low <= i <= n - 1
      ensures !StopAt(v, b, i)
    {
      StopShift(u, b, i + 1);
    }
  }

  lemma {:induction false} RunUntilEnds(u: Machine, b: set<Addr>, n: nat, fuel: nat)
    requires EndsFirst(u, b, 0, n) && fuel > n
    ensures RunUntil(u, b, fuel) == Gone
    decreases n
  {
    hide Step;
    assert !StopAt(u, b, 0);
    if n > 0 {
      EndShift(u, b, 0, n);
      RunUntilEnds(Step(u).m, b, n - 1, fuel - 1);
    }
  }

  /** The first position `cont` may stop at. */
  function FirstCandidate(ripSet: bool): nat {
    if ripSet then 0 else 1
  }

  /** `cont` stops at the least position on a breakpoint after the present one, or at the
      present one when `rip` has just been set; otherwise the process has exited before any. */
  lemma ContStopsNext(o: Obs, fuel: nat) returns (n: nat)
    requires o.phase.Running? && SeeCont(o, fuel).Some?
    ensures var (u, b, after) := (o.phase.m, AddrSet(o.addrs), SeeCont(o, fuel).value);
            if after.phase.Running? then
              NextStop(u, b, FirstCandidate(o.ripSet), n) && Steps(u, n) == [after.phase.m] && !after.ripSet
            else after.phase.Loaded? && EndsFirst(u, b, FirstCandidate(o.ripSet), n)
  {
    hide Step, See, RunUntil;
    var (u, b) := (o.phase.m, AddrSet(o.addrs));
    assert StopAt(u, b, 0) <==> u.regs.rip in b;
    if !o.ripSet && u.regs.rip in o.addrs {
      n := 0;
      if Step(u).Next? {
        var k := RunUntilStops(Step(u).m, b, fuel);
        n := k + 1;
        StepsShift(u, n);
        ShiftOnce(u, b, n);
      }
    } else {
      n := RunUntilStops(u, b, fuel);
    }
  }

  lemma ShiftOnce(u: Machine, b: set<Addr>, n: nat)
    requires n > 0 && Step(u).Next?
    ensures NextStop(Step(u).m, b, 0, n - 1) ==> NextStop(u, b, 1, n)
    ensures EndsFirst(Step(u).m, b, 0, n - 1) ==> EndsFirst(u, b, 1, n)
  {
    hide Step, StopAt;
    StepsShift(u, n);
    forall i | 1 <= i <= n
      ensures StopAt(u, b, i) <==> StopAt(Step(u).m, b, i - 1)
    {
      StopShift(u, b, i);
    }
  }

  /** Conversely, if there is such a position, `cont` returns there. */
  lemma ContReaches(o: Obs, n: nat, fuel: nat)
    requires o.phase.Running? && NextStop(o.phase.m, AddrSet(o.addrs), FirstCandidate(o.ripSet), n) && fuel > n
    ensures SeeCont(o, fuel) == Some(o.At(Steps(o.phase.m, n)[0]).Says(See(o, Steps(o.phase.m, n)[0])))
  {
    hide Step, See, RunUntil;
    var (u, b) := (o.phase.m, AddrSet(o.addrs));
    assert StopAt(u, b, 0) <==> u.regs.rip in b;
    if !o.ripSet && u.regs.rip in o.addrs {
      StepsShift(u, n);
      StopShift(u, b, n);
      forall i | 0 <= i < n - 1
        ensures !StopAt(Step(u).m, b, i)
      {
        StopShift(u, b, i + 1);
      }
      RunUntilReaches(Step(u).m, b, n - 1, fuel);
    } else {
      RunUntilReaches(u, b, n, fuel);
    }
  }

  lemma ContEnds(o: Obs, n: nat, fuel: nat)
    requires o.phase.Running? && EndsFirst(o.phase.m, AddrSet(o.addrs), FirstCandidate(o.ripSet), n) && fuel > n
    ensures SeeCont(o, fuel) == Some(Over(o))
  {
    hide Step, See, RunUntil, StopAt;
    var (u, b) := (o.phase.m, AddrSet(o.addrs));
    assert StopAt(u, b, 0) <==> u.regs.rip in b by {
      StopNow(u, b);
    }
    if !o.ripSet && u.regs.rip in o.addrs {
      StopNow(u, b);
      if n > 0 {
        EndShift(u, b, 1, n);
        RunUntilEnds(Step(u).m, b, n - 1, fuel);
      }
    } else {
      RunUntilEnds(u, b, n, fuel);
    }
  }

  lemma StopNow(u: Machine, b: set<Addr>)
    ensures StopAt(u, b, 0) <==> u.regs.rip in b
    ensures Steps(u, 0) == [u]
  {
    hide Step;
  }

  // ----- several in a row

  function Repeat(c: Command, k: nat): seq<Command>
    ensures |Repeat(c, k)| == k
  {
    seq(k, _ => c)
  }

  lemma RepeatTail(c: Command, k: nat)
    requires k > 0
    ensures Repeat(c, k)[0] == c && Repeat(c, k)[1..] == Repeat(c, k - 1)
  {
  }

  /** How many of the positions 1 to `n` stand on a breakpoint. */
  function CountStops(u: Machine, b: set<Addr>, n: nat): (k: nat)
    ensures k <= n
    decreases n
  {
    if n == 0 then 0
    else
      match Step(u)
      case Next(v) => (if v.regs.rip in b then 1 else 0) + CountStops(v, b, n - 1)
      case _ => 0
  }

  lemma {:induction false} CountSplit(u: Machine, b: set<Addr>, j: nat, n: nat)
    requires Steps(u, j) != []
    ensures CountStops(u, b, j + n) == CountStops(u, b, j) + CountStops(Steps(u, j)[0], b, n)
    decreases j
  {
    hide Step;
    if j > 0 {
      CountSplit(Step(u).m, b, j - 1, n);
    }
  }

  lemma {:induction false} CountToNext(u: Machine, b: set<Addr>, j: nat)
    requires NextStop(u, b, 1, j)
    ensures CountStops(u, b, j) == 1
    decreases j
  {
    hide Step;
    StepsShift(u, j);
    var v := Step(u).m;
    StopShift(u, b, 1);
    assert StopAt(v, b, 0) <==> v.regs.rip in b;
    if j > 1 {
      assert !StopAt(u, b, 1);
      StopShift(u, b, j);
      forall i | 1 <= i < j - 1
        ensures !StopAt(v, b, i)
      {
        StopShift(u, b, i + 1);
      }
      CountToNext(v, b, j - 1);
    } else {
      assert StopAt(u, b, 1);
    }
  }

  lemma {:induction false} LeastStop(u: Machine, b: set<Addr>, from: nat, n: nat) returns (j: nat)
    requires from <= n && StopAt(u, b, n)
    ensures j <= n && NextStop(u, b, from, j)
    decreases n - from
  {
    hide StopAt;
    if StopAt(u, b, from) {
      j := from;
    } else {
      j := LeastStop(u, b, from + 1, n);
    }
  }

  lemma {:induction false} GoneStaysGone(o: Obs, k: nat, fuel: nat)
    requires o.phase.Loaded?
    ensures SeeAll(o, Repeat(Cont, k), fuel).Some? ==> SeeAll(o, Repeat(Cont, k), fuel).value.phase.Loaded?
    decreases k
  {
    hide Step;
    if k > 0 {
      RepeatTail(Cont, k);
      GoneStaysGone(SeeCont(o, fuel).value, k - 1, fuel);
    }
  }

  /** The place the process is in after `k` stops: position `n`, with exactly `k` breakpoint
      positions up to and including it. */
  ghost predicate KthStop(u: Machine, b: set<Addr>, k: nat, n: nat) {
    Steps(u, n) != [] && CountStops(u, b, n) == k && (if k == 0 then n == 0 else n > 0 && StopAt(u, b, n))
  }

  lemma KthStopExtend(u: Machine, b: set<Addr>, j: nat, k: nat, n: nat)
    requires k > 0 && NextStop(u, b, 1, j) && KthStop(Steps(u, j)[0], b, k - 1, n)
    ensures KthStop(u, b, k, j + n) && Steps(u, j + n) == Steps(Steps(u, j)[0], n)
  {
    hide Step;
    CountToNext(u, b, j);
    CountSplit(u, b, j, n);
    StepsAppend(u, j, n);
  }

  /** `k` times `cont` visits the `k`-th breakpoint position: none is skipped, none is seen twice. */
  lemma {:induction false} ContsVisit(o: Obs, k: nat, fuel: nat) returns (n: nat)
    requires o.phase.Running? && !o.ripSet
    requires SeeAll(o, Repeat(Cont, k), fuel).Some? && SeeAll(o, Repeat(Cont, k), fuel).value.phase.Running?
    ensures KthStop(o.phase.m, AddrSet(o.addrs), k, n)
    ensures Steps(o.phase.m, n) == [SeeAll(o, Repeat(Cont, k), fuel).value.phase.m]
    decreases k
  {
    hide Step, SeeCont, StopAt;
    n := 0;
    if k > 0 {
      RepeatTail(Cont, k);
      var j := ContStopsNext(o, fuel);
      var after := SeeCont(o, fuel).value;
      if after.phase.Loaded? {
        GoneStaysGone(after, k - 1, fuel);
      }
      ContKeeps(o, fuel);
      var rest := ContsVisit(after, k - 1, fuel);
      KthStopExtend(o.phase.m, AddrSet(o.addrs), j, k, rest);
      n := j + rest;
    }
  }

  lemma ContKeeps(o: Obs, fuel: nat)
    requires o.phase.Running? && SeeCont(o, fuel).Some?
    ensures var after := SeeCont(o, fuel).value;
            && after.addrs == o.addrs && !after.phase.NoLoad? && after.phase.img == o.phase.img
  {
    hide Step, RunUntil, See;
  }

  /** Every breakpoint position of the execution is visited, by as many `cont` as there are such
      positions up to it. */
  lemma {:induction false} ContsReach(o: Obs, n: nat, fuel: nat)
    requires o.phase.Running? && !o.ripSet && n > 0 && StopAt(o.phase.m, AddrSet(o.addrs), n) && fuel > n
    ensures var r := SeeAll(o, Repeat(Cont, CountStops(o.phase.m, AddrSet(o.addrs), n)), fuel);
            r.Some? && r.value.phase == Running(o.phase.img, Steps(o.phase.m, n)[0])
    decreases n
  {
    hide Step, See;
    var (u, b) := (o.phase.m, AddrSet(o.addrs));
    var j := LeastStop(u, b, 1, n);
    ContReaches(o, j, fuel);
    var v := Steps(u, j)[0];
    var after := SeeCont(o, fuel).value;
    CountToNext(u, b, j);
    CountSplit(u, b, j, n - j);
    StepsAppend(u, j, n - j);
    var k := CountStops(v, b, n - j);
    RepeatTail(Cont, 1 + k);
    if j < n {
      ContsReach(after, n - j, fuel);
    }
  }

  lemma {:induction false} ContsPrefix(o: Obs, j: nat, k: nat, fuel: nat)
    requires o.phase.Running? && j <= k
    requires SeeAll(o, Repeat(Cont, k), fuel).Some? && SeeAll(o, Repeat(Cont, k), fuel).value.phase.Running?
    ensures SeeAll(o, Repeat(Cont, j), fuel).Some? && SeeAll(o, Repeat(Cont, j), fuel).value.phase.Running?
    decreases j
  {
    hide Step, SeeCont;
    if j > 0 {
      RepeatTail(Cont, j);
      RepeatTail(Cont, k);
      ContKeeps(o, fuel);
      var after := SeeCont(o, fuel).value;
      if after.phase.Loaded? {
        GoneStaysGone(after, k - 1, fuel);
      } else {
        ContsPrefix(after, j - 1, k - 1, fuel);
      }
    }
  }

  lemma {:induction false} CountGrows(u: Machine, b: set<Addr>, n: nat, n': nat)
    requires n <= n'
    ensures CountStops(u, b, n) <= CountStops(u, b, n')
    decreases n
  {
    hide Step;
    if n > 0 && Step(u).Next? {
      CountGrows(Step(u).m, b, n - 1, n' - 1);
    }
  }

  lemma {:induction false} CountStrict(u: Machine, b: set<Addr>, n: nat, n': nat)
    requires n < n' && StopAt(u, b, n')
    ensures CountStops(u, b, n) < CountStops(u, b, n')
    decreases n'
  {
    hide Step;
    StepsShift(u, n');
    var v := Step(u).m;
    StopShift(u, b, n');
    if n > 0 {
      CountStrict(v, b, n - 1, n' - 1);
    } else if n' > 1 {
      CountStrict(v, b, 0, n' - 1);
    } else {
      assert StopAt(v, b, 0) <==> v.regs.rip in b;
    }
  }

  ghost predicate Increasing(ns: seq<nat>) {
    forall i, j :: 0 <= i < j < |ns| ==> ns[i] < ns[j]
  }

  /** The positions at which the first `k` times `cont` stop, in order. */
  lemma {:induction false} StopPositions(o: Obs, k: nat, fuel: nat) returns (ns: seq<nat>)
    requires o.phase.Running? && !o.ripSet
    requires SeeAll(o, Repeat(Cont, k), fuel).Some? && SeeAll(o, Repeat(Cont, k), fuel).value.phase.Running?
    ensures |ns| == k && Increasing(ns)
    ensures forall j | 0 <= j < k :: KthStop(o.phase.m, AddrSet(o.addrs), j + 1, ns[j])
    decreases k
  {
    hide Step, SeeCont, StopAt, SeeAll;
    ns := [];
    if k > 0 {
      ContsPrefix(o, k - 1, k, fuel);
      var before := StopPositions(o, k - 1, fuel);
      var n := ContsVisit(o, k, fuel);
      if k > 1 && n <= before[k - 2] {
        CountGrows(o.phase.m, AddrSet(o.addrs), n, before[k - 2]);
      }
      ns := before + [n];
    }
  }

  /** `k` times `cont` lead to position `n`. */
  ghost predicate ContsStopAt(o: Obs, k: nat, fuel: nat, n: nat)
    requires o.phase.Running?
  {
    var r := SeeAll(o, Repeat(Cont, k), fuel);
    r.Some? && r.value.phase.Running? && r.value.phase.img == o.phase.img && Steps(o.phase.m, n) == [r.value.phase.m]
  }

  /** The stops with fewer breakpoints are a subsequence of the stops with more: stop `j + 1` of the
      first is at position `ns[j]`, which is stop `CountStops(.., ns[j])` of the second, and both
      the positions and those numbers increase. */
  lemma StopsNest(o: Obs, more: Obs, k: nat, fuel: nat) returns (ns: seq<nat>, wait: nat)
    requires o.phase.Running? && !o.ripSet && more.phase == o.phase && !more.ripSet
    requires AddrSet(o.addrs) <= AddrSet(more.addrs)
    requires SeeAll(o, Repeat(Cont, k), fuel).Some? && SeeAll(o, Repeat(Cont, k), fuel).value.phase.Running?
    ensures fuel <= wait && |ns| == k && Increasing(ns)
    ensures forall i, j | 0 <= i < j < k ::
              CountStops(o.phase.m, AddrSet(more.addrs), ns[i]) < CountStops(o.phase.m, AddrSet(more.addrs), ns[j])
    ensures forall j | 0 <= j < k ::
              && KthStop(o.phase.m, AddrSet(o.addrs), j + 1, ns[j])
              && ContsStopAt(o, j + 1, fuel, ns[j])
              && ContsStopAt(more, CountStops(o.phase.m, AddrSet(more.addrs), ns[j]), wait, ns[j])
  {
    hide Step, SeeCont, See, SeeAll;
    var (u, s, t) := (o.phase.m, AddrSet(o.addrs), AddrSet(more.addrs));
    ns := StopPositions(o, k, fuel);
    wait := if k == 0 || ns[k - 1] < fuel then fuel else ns[k - 1] + 1;
    forall i, j | 0 <= i < j < k
      ensures CountStops(u, t, ns[i]) < CountStops(u, t, ns[j])
    {
      CountStrict(u, t, ns[i], ns[j]);
    }
    forall j | 0 <= j < k
      ensures ContsStopAt(o, j + 1, fuel, ns[j])
      ensures ContsStopAt(more, CountStops(u, t, ns[j]), wait, ns[j])
    {
      ContsPrefix(o, j + 1, k, fuel);
      KthStopReached(o, j + 1, fuel, ns[j]);
      ContsReach(more, ns[j], wait);
    }
  }

  lemma KthStopReached(o: Obs, k: nat, fuel: nat, n: nat)
    requires o.phase.Running? && !o.ripSet && KthStop(o.phase.m, AddrSet(o.addrs), k, n)
    requires SeeAll(o, Repeat(Cont, k), fuel).Some? && SeeAll(o, Repeat(Cont, k), fuel).value.phase.Running?
    ensures ContsStopAt(o, k, fuel, n)
  {
    hide Step, SeeCont, SeeAll, StopAt;
    var n' := ContsVisit(o, k, fuel);
    KthStopUnique(o.phase.m, AddrSet(o.addrs), k, n, n');
    ContsKeepImage(o, k, fuel);
  }

  lemma KthStopUnique(u: Machine, b: set<Addr>, k: nat, n: nat, n': nat)
    requires KthStop(u, b, k, n) && KthStop(u, b, k, n')
    ensures n == n'
  {
    hide Step, StopAt, Steps;
    if n < n' {
      CountStrict(u, b, n, n');
    } else if n' < n {
      CountStrict(u, b, n', n);
    }
  }

  lemma {:induction false} ContsKeepImage(o: Obs, k: nat, fuel: nat)
    requires o.phase.Running?
    requires SeeAll(o, Repeat(Cont, k), fuel).Some? && SeeAll(o, Repeat(Cont, k), fuel).value.phase.Running?
    ensures SeeAll(o, Repeat(Cont, k), fuel).value.phase.img == o.phase.img
    decreases k
  {
    hide Step, SeeCont;
    if k > 0 {
      RepeatTail(Cont, k);
      ContKeeps(o, fuel);
      var after := SeeCont(o, fuel).value;
      var n := ContStopsNext(o, fuel);
      if after.phase.Loaded? {
        GoneStaysGone(after, k - 1, fuel);
      } else {
        ContsKeepImage(after, k - 1, fuel);
      }
    }
  }

  /** `n` times `si` is `n` instructions of the program, or its end. */
  lemma {:induction false} SisStep(o: Obs, n: nat, fuel: nat)
    requires o.phase.Running?
    ensures var r := SeeAll(o, Repeat(Si, n), fuel);
            && r.Some? && r.value.addrs == o.addrs
            && r.value.phase == if Steps(o.phase.m, n) == [] then Loaded(o.phase.img)
                                else Running(o.phase.img, Steps(o.phase.m, n)[0])
    decreases n
  {
    hide Step, See;
    if n > 0 {
      RepeatTail(Si, n);
      var after := SeeSi(o);
      if after.phase.Running? {
        SisStep(after, n - 1, fuel);
      } else {
        SisAfterEnd(after, n - 1, fuel);
      }
    }
  }

  lemma {:induction false} SisAfterEnd(o: Obs, n: nat, fuel: nat)
    requires o.phase.Loaded?
    ensures var r := SeeAll(o, Repeat(Si, n), fuel);
            r.Some? && r.value.addrs == o.addrs && r.value.phase == o.phase
    decreases n
  {
    hide Step;
    if n > 0 {
      RepeatTail(Si, n);
      SisAfterEnd(SeeSi(o), n - 1, fuel);
    }
  }
}
