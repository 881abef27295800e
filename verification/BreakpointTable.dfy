/** The breakpoint table: entries in the order they were set, found by position or by address. */
module BreakpointTable {
  import opened Words

  /** An address and the eight bytes that stood there when the breakpoint was set. */
  datatype Entry = Entry(addr: Addr, code: word)

  /** The position of the first occurrence of `a`, or -1. */
  function IndexOf(s: seq<Addr>, a: Addr): (i: int)
    ensures -1 <= i < |s|
    ensures i >= 0 ==> s[i] == a && a !in s[..i]
    ensures i < 0 <==> a !in s
  {
    if s == [] then -1
    else if s[0] == a then 0
    else
      var i := IndexOf(s[1..], a);
      if i < 0 then -1 else assert s[..i + 1] == [s[0]] + s[1..][..i]; i + 1
  }

  function Addrs(t: seq<Entry>): (s: seq<Addr>)
    ensures |s| == |t|
  {
    seq(|t|, i requires 0 <= i < |t| => t[i].addr)
  }

  function AddrSet(s: seq<Addr>): set<Addr> {
    set a | a in s
  }

  /** The first entry for `a`. */
  function First(t: seq<Entry>, a: Addr): (e: Entry)
    requires a in Addrs(t)
    ensures e in t && e.addr == a
  {
    t[IndexOf(Addrs(t), a)]
  }

  function Remove<T>(s: seq<T>, i: nat): seq<T>
    requires i < |s|
  {
    s[..i] + s[i + 1..]
  }

  ghost predicate Distinct<T>(s: seq<T>) {
    forall i, j :: 0 <= i < j < |s| ==> s[i] != s[j]
  }

  class Table {
    var data: seq<Entry>

    constructor ()
      ensures data == []
    {
      data := [];
    }

    method Size() returns (n: nat)
      ensures n == |data|
    {
      n := |data|;
    }

    method IndexOfAddr(addr: Addr) returns (index: int)
      ensures index == IndexOf(Addrs(data), addr)
    {
      index := -1;
      var i := 0;
      while i < |data|
        invariant 0 <= i <= |data|
        invariant index == -1 && addr !in Addrs(data)[..i]
      {
        if data[i].addr == addr {
          index := i;
          break;
        }
        i := i + 1;
      }
      if index >= 0 {
        FirstIsUnique(Addrs(data), addr, index);
      }
    }

    method IncludeIndex(index: int) returns (r: bool)
      ensures r <==> 0 <= index < |data|
    {
      r := index >= 0 && index < |data|;
    }

    method IncludeAddr(addr: Addr) returns (r: bool)
      ensures r <==> addr in Addrs(data)
    {
      var index := IndexOfAddr(addr);
      r := IncludeIndex(index);
    }

    /** Every caller checks `IncludeAddr` first; the position -1 is never dereferenced. */
    method Lookup(addr: Addr) returns (e: Entry)
      requires addr in Addrs(data)
      ensures e == First(data, addr)
    {
      var index := IndexOfAddr(addr);
      e := data[index];
    }

    method Add(addr: Addr, code: word)
      modifies this
      ensures data == old(data) + [Entry(addr, code)]
    {
      data := data + [Entry(addr, code)];
    }

    method Del(index: nat)
      requires index < |data|
      modifies this
      ensures data == Remove(old(data), index)
    {
      data := data[..index] + data[index + 1..];
    }
  }

  lemma FirstIsUnique(s: seq<Addr>, a: Addr, i: nat)
    requires i < |s| && s[i] == a && a !in s[..i]
    ensures IndexOf(s, a) == i
  {
    var j := IndexOf(s, a);
    assert j >= 0;
    assert forall k :: 0 <= k < i ==> s[..i][k] == s[k];
    assert forall k :: 0 <= k < j ==> s[..j][k] == s[k];
  }

  // ----- the table as an ordered set

  /** With distinct addresses, looking up by position and by address are mutually inverse. */
  lemma LookupsAreInverse(t: seq<Entry>, a: Addr, i: nat)
    requires Distinct(Addrs(t)) && i < |t|
    ensures IndexOf(Addrs(t), t[i].addr) == i
    ensures a in Addrs(t) ==> t[IndexOf(Addrs(t), a)].addr == a
    ensures First(t, t[i].addr) == t[i]
  {
    var s := Addrs(t);
    assert forall k :: 0 <= k < i ==> s[..i][k] == s[k];
    FirstIsUnique(s, s[i], i);
  }

  lemma AddrsOfRemove(t: seq<Entry>, i: nat)
    requires i < |t|
    ensures Addrs(Remove(t, i)) == Remove(Addrs(t), i)
  {
  }

  lemma AddrsOfAdd(t: seq<Entry>, e: Entry)
    ensures Addrs(t + [e]) == Addrs(t) + [e.addr]
    ensures AddrSet(Addrs(t + [e])) == AddrSet(Addrs(t)) + {e.addr}
  {
    var s := Addrs(t);
    assert Addrs(t + [e]) == s + [e.addr];
  }

  /** A first occurrence stays first when something is appended. */
  lemma IndexOfAppend(s: seq<Addr>, b: Addr, a: Addr)
    ensures IndexOf(s + [b], a) == if a in s then IndexOf(s, a) else if a == b then |s| else -1
  {
    var i := IndexOf(s, a);
    if i >= 0 {
      assert (s + [b])[..i] == s[..i];
      FirstIsUnique(s + [b], a, i);
    } else if a == b {
      assert (s + [b])[..|s|] == s;
      FirstIsUnique(s + [b], a, |s|);
    }
  }

  /** Deleting entry `i` moves later entries down by one. Only the address at `i` can change its
      first occurrence in any other way, and only when `i` was that occurrence. */
  lemma IndexOfRemove(s: seq<Addr>, i: nat, a: Addr)
    requires i < |s| && (a != s[i] || IndexOf(s, a) < i)
    ensures IndexOf(Remove(s, i), a) == if IndexOf(s, a) > i then IndexOf(s, a) - 1 else IndexOf(s, a)
  {
    var k := IndexOf(s, a);
    var r := Remove(s, i);
    if k > i {
      assert r[..k - 1] == Remove(s[..k], i);
      FirstIsUnique(r, a, k - 1);
    } else if k >= 0 {
      assert r[..k] == s[..k];
      FirstIsUnique(r, a, k);
    }
  }

  lemma RemoveOne(s: seq<Addr>, i: nat)
    requires i < |s|
    ensures multiset(Remove(s, i)) == multiset(s) - multiset{s[i]}
  {
    assert s == s[..i] + [s[i]] + s[i + 1..];
  }

  lemma RemoveDistinct(s: seq<Addr>, i: nat)
    requires Distinct(s) && i < |s|
    ensures Distinct(Remove(s, i)) && AddrSet(Remove(s, i)) == AddrSet(s) - {s[i]}
  {
    var r := Remove(s, i);
    forall a | a in s && a != s[i]
      ensures a in r
    {
      var k :| 0 <= k < |s| && s[k] == a;
      assert r[if k < i then k else k - 1] == a;
    }
    assert AddrSet(r) == AddrSet(s) - {s[i]};
  }

  /** Deleting by position takes one occurrence out and keeps the others in order, so that distinct
      addresses stay distinct and one of them goes. */
  lemma RemoveKeepsOrder(s: seq<Addr>, i: nat)
    requires i < |s|
    ensures |Remove(s, i)| == |s| - 1 && multiset(Remove(s, i)) == multiset(s) - multiset{s[i]}
    ensures forall j | 0 <= j < |s| - 1 :: Remove(s, i)[j] == s[if j < i then j else j + 1]
    ensures Distinct(s) ==> Distinct(Remove(s, i)) && AddrSet(Remove(s, i)) == AddrSet(s) - {s[i]}
  {
    hide Distinct, AddrSet;
    RemoveOne(s, i);
    if Distinct(s) {
      RemoveDistinct(s, i);
    }
  }
}
