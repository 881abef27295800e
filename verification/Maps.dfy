/** The memory map of the process: the order its ranges are kept in, and the loop that fills it. */
module Maps {

  /** From `begin` up to, not including, `end`. */
  datatype Range = Range(begin: nat, end: nat)
  datatype Region = Region(range: Range, perm: string, offset: int, name: string)

  predicate Less(a: Range, b: Range) {
    a.begin < b.begin && a.end < b.end
  }

  predicate Below(a: Range, b: Range) {
    a.end <= b.begin
  }

  /** Not empty, and nothing in common. */
  predicate Apart(a: Range, b: Range) {
    a.begin < a.end && b.begin < b.end && (Below(a, b) || Below(b, a))
  }

  /** On ranges apart from each other the order is the order of addresses, and exactly one of two
      ranges comes first. It is transitive on all ranges, and no range comes before itself. */
  lemma OrderIsStrict(a: Range, b: Range, c: Range)
    ensures !Less(a, a) && (Less(a, b) && Less(b, c) ==> Less(a, c))
    ensures Apart(a, b) ==> (Less(a, b) <==> Below(a, b)) && (Less(a, b) <==> !Less(b, a))
  {
  }

  /** Which of two ranges comes first, in general: the one that begins lower, unless one of them lies
      within the other; then neither does. */
  lemma OrderExact(a: Range, b: Range)
    ensures var within := (a.begin <= b.begin && b.end <= a.end) || (b.begin <= a.begin && a.end <= b.end);
            && (!Less(a, b) && !Less(b, a) <==> within)
            && (Less(a, b) <==> a.begin < b.begin && !within)
  {
  }

  /** On ranges that overlap it is no order a map can be kept in: neither of two ranges need come
      first, and then a third may be so with both but not between them. */
  lemma NotWeakInGeneral()
    ensures exists a: Range, b: Range, c: Range ::
              !Less(a, b) && !Less(b, a) && !Less(b, c) && !Less(c, b) && Less(a, c)
  {
    var (a, b, c) := (Range(0, 1), Range(0, 10), Range(5, 6));
    assert !Less(a, b) && !Less(b, a) && !Less(b, c) && !Less(c, b) && Less(a, c);
  }

  // ----- the map

  /** A key and the region stored under it. */
  datatype Slot = Slot(key: Range, region: Region)

  /** The first position whose key is not less than `r`. */
  function LowerBound(s: seq<Slot>, r: Range): (i: nat)
    ensures i <= |s| && (forall k | 0 <= k < i :: Less(s[k].key, r)) && (i < |s| ==> !Less(s[i].key, r))
  {
    if s == [] || !Less(s[0].key, r) then 0 else 1 + LowerBound(s[1..], r)
  }

  /** `loaded[m.range] = m`: a key that is neither less nor greater stays and gets the new region. */
  function Assign(s: seq<Slot>, m: Region): seq<Slot> {
    var i := LowerBound(s, m.range);
    if i < |s| && !Less(m.range, s[i].key) then s[i := Slot(s[i].key, m)]
    else s[..i] + [Slot(m.range, m)] + s[i..]
  }

  /** The lines with six fields or more; the others are skipped. */
  function Accepted(lines: seq<(nat, Region)>): seq<Region> {
    if lines == [] then []
    else
      var before, l := Accepted(lines[..|lines| - 1]), lines[|lines| - 1];
      if l.0 < 6 then before else before + [l.1]
  }

  function AssignAll(ms: seq<Region>): seq<Slot> {
    if ms == [] then [] else Assign(AssignAll(ms[..|ms| - 1]), ms[|ms| - 1])
  }

  /** Each line comes as the number of its fields and what they say. */
  method MapsParser(lines: seq<(nat, Region)>) returns (loaded: seq<Slot>)
    ensures loaded == AssignAll(Accepted(lines))
  {
    loaded := [];
    var i := 0;
    while i < |lines|
      invariant 0 <= i <= |lines|
      invariant loaded == AssignAll(Accepted(lines[..i]))
    {
      var (nargs, m) := lines[i];
      assert lines[..i + 1][..i] == lines[..i];
      if nargs < 6 {
        i := i + 1;
        continue;
      }
      var before := Accepted(lines[..i]);
      assert (before + [m])[..|before|] == before;
      loaded := Assign(loaded, m);
      i := i + 1;
    }
    assert lines[..i] == lines;
  }

  ghost predicate Increasing(ks: seq<nat>) {
    forall i, j :: 0 <= i < j < |ks| ==> ks[i] < ks[j]
  }

  lemma AddPosition(ks: seq<nat>, n: nat)
    requires Increasing(ks) && forall k | k in ks :: k < n
    ensures Increasing(ks + [n]) && forall k: nat :: k in ks + [n] <==> k in ks || k == n
  {
    forall j | 0 <= j < |ks|
      ensures ks[j] < n
    {
      assert ks[j] in ks;
    }
  }

  /** `ks` are the positions of the lines with six fields or more, in order, and `ms` what those
      lines say. */
  ghost predicate Picks(lines: seq<(nat, Region)>, ks: seq<nat>, ms: seq<Region>) {
    && Increasing(ks) && (forall k: nat :: k in ks <==> k < |lines| && lines[k].0 >= 6)
    && |ks| == |ms| && forall j | 0 <= j < |ks| :: ks[j] < |lines| && ms[j] == lines[ks[j]].1
  }

  lemma PicksNext(lines: seq<(nat, Region)>, l: (nat, Region), ks: seq<nat>, ms: seq<Region>)
    requires Picks(lines, ks, ms)
    ensures l.0 < 6 ==> Picks(lines + [l], ks, ms)
    ensures l.0 >= 6 ==> Picks(lines + [l], ks + [|lines|], ms + [l.1])
  {
    hide Increasing;
    var n := |lines|;
    assert forall k | 0 <= k < n :: (lines + [l])[k] == lines[k];
    AddPosition(ks, n);
  }

  /** The accepted lines are exactly those with six fields or more, in their order. */
  lemma {:induction false} AcceptedExact(lines: seq<(nat, Region)>) returns (ks: seq<nat>)
    ensures Picks(lines, ks, Accepted(lines))
  {
    hide Picks;
    if lines == [] {
      ks := [];
      NothingPicked();
    } else {
      var n := |lines| - 1;
      var (before, l) := (lines[..n], lines[n]);
      ks := AcceptedExact(before);
      PicksNext(before, l, ks, Accepted(before));
      assert before + [l] == lines;
      ks := if l.0 >= 6 then ks + [n] else ks;
    }
  }

  lemma NothingPicked()
    ensures Picks([], [], [])
  {
  }

  /** An assignment under a key that is neither less nor greater than the first not less replaces
      that region and keeps the key. */
  lemma AssignReplaces(s: seq<Slot>, m: Region)
    requires LowerBound(s, m.range) < |s| && !Less(m.range, s[LowerBound(s, m.range)].key)
    ensures var (r, i) := (Assign(s, m), LowerBound(s, m.range));
            && |r| == |s| && r[i].key == s[i].key && r[i].region == m
            && forall k | 0 <= k < |s| && k != i :: r[k] == s[k]
  {
    hide Less, LowerBound;
  }

  lemma Inserted(s: seq<Slot>, i: nat, x: Slot)
    requires i <= |s|
    ensures var r := s[..i] + [x] + s[i..];
            && |r| == |s| + 1 && r[i] == x
            && (forall k | 0 <= k < i :: r[k] == s[k]) && forall k | i < k <= |s| :: r[k] == s[k - 1]
  {
  }

  /** Any other adds an entry in front of that one. */
  lemma AssignAdds(s: seq<Slot>, m: Region)
    requires LowerBound(s, m.range) == |s| || Less(m.range, s[LowerBound(s, m.range)].key)
    ensures var (r, i) := (Assign(s, m), LowerBound(s, m.range));
            && |r| == |s| + 1 && r[i].key == m.range && r[i].region == m
            && (forall k | 0 <= k < i :: r[k] == s[k]) && forall k | i < k <= |s| :: r[k] == s[k - 1]
  {
    hide Less, LowerBound;
    Inserted(s, LowerBound(s, m.range), Slot(m.range, m));
  }

  // ----- what the map holds

  ghost predicate AllApart(ms: seq<Region>) {
    forall i, j :: 0 <= i < j < |ms| ==> Apart(ms[i].range, ms[j].range)
  }

  ghost predicate Sorted(s: seq<Slot>) {
    && (forall i | 0 <= i < |s| :: s[i].key == s[i].region.range)
    && (forall i, j :: 0 <= i < j < |s| ==> Below(s[i].key, s[j].key))
  }

  function Regions(s: seq<Slot>): (ms: seq<Region>)
    ensures |ms| == |s|
  {
    seq(|s|, i requires 0 <= i < |s| => s[i].region)
  }

  lemma NextIsAbove(s: seq<Slot>, r: Range)
    requires Sorted(s) && forall i | 0 <= i < |s| :: Apart(s[i].key, r)
    ensures forall k | LowerBound(s, r) <= k < |s| :: Below(r, s[k].key)
    ensures forall k | 0 <= k < LowerBound(s, r) :: Below(s[k].key, r)
  {
    hide LowerBound;
    var i := LowerBound(s, r);
    forall k | i <= k < |s|
      ensures Below(r, s[k].key)
    {
      if k > i {
        assert Below(s[i].key, s[k].key);
      }
    }
  }

  lemma InsertSorted(s: seq<Slot>, i: nat, m: Region)
    requires Sorted(s) && i <= |s|
    requires (forall k | i <= k < |s| :: Below(m.range, s[k].key)) && forall k | 0 <= k < i :: Below(s[k].key, m.range)
    ensures Sorted(s[..i] + [Slot(m.range, m)] + s[i..])
  {
    hide Below;
  }

  lemma InsertRegions(s: seq<Slot>, i: nat, m: Region)
    requires i <= |s|
    ensures multiset(Regions(s[..i] + [Slot(m.range, m)] + s[i..])) == multiset(Regions(s)) + multiset{m}
  {
    assert Regions(s[..i] + [Slot(m.range, m)] + s[i..]) == Regions(s)[..i] + [m] + Regions(s)[i..];
    assert Regions(s) == Regions(s)[..i] + Regions(s)[i..];
  }

  lemma AssignInserts(s: seq<Slot>, m: Region)
    requires Sorted(s) && m.range.begin < m.range.end
    requires forall i | 0 <= i < |s| :: Apart(s[i].key, m.range)
    ensures Sorted(Assign(s, m)) && |Assign(s, m)| == |s| + 1
    ensures multiset(Regions(Assign(s, m))) == multiset(Regions(s)) + multiset{m}
  {
    hide LowerBound, Sorted, Regions;
    var i := LowerBound(s, m.range);
    NextIsAbove(s, m.range);
    InsertSorted(s, i, m);
    InsertRegions(s, i, m);
    if i < |s| {
      OrderIsStrict(m.range, s[i].key, m.range);
    }
  }

  /** On a list of maps as the kernel gives it, ranges apart from each other, the map keeps one
      entry for each accepted line, with that line's region, in the order of addresses. */
  lemma {:induction false} KeepsEveryLine(ms: seq<Region>)
    requires AllApart(ms) && forall m | m in ms :: m.range.begin < m.range.end
    ensures Sorted(AssignAll(ms)) && |AssignAll(ms)| == |ms|
    ensures multiset(Regions(AssignAll(ms))) == multiset(ms)
  {
    hide Assign, Sorted;
    if ms == [] {
      NothingSorted();
    } else {
      var before, m := ms[..|ms| - 1], ms[|ms| - 1];
      assert ms == before + [m];
      KeepsEveryLine(before);
      var s := AssignAll(before);
      ApartFromAll(s, before, m);
      AssignInserts(s, m);
    }
  }

  lemma NothingSorted()
    ensures Sorted([])
  {
  }

  lemma ApartFromAll(s: seq<Slot>, before: seq<Region>, m: Region)
    requires Sorted(s) && multiset(Regions(s)) == multiset(before)
    requires forall i | 0 <= i < |before| :: Apart(before[i].range, m.range)
    ensures forall i | 0 <= i < |s| :: Apart(s[i].key, m.range)
  {
    forall i | 0 <= i < |s|
      ensures Apart(s[i].key, m.range)
    {
      assert Regions(s)[i] in multiset(Regions(s));
      assert Regions(s)[i] in before;
    }
  }
}
