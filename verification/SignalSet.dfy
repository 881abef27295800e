/** Signal sets: a 64-bit mask kept by bit operations. */
module SignalSet {
  import opened Words
  import opened Binary

  const EINVAL: int := 22

  // ----- bit operations

  function With(w: word, m: word): word { w | m }

  function Without(w: word, m: word): word { w & !m }

  lemma {:induction false} ShlAdds(w: word, n: nat, k: nat)
    ensures Shl(w, n + k) == Shl(Shl(w, n), k)
    decreases k
  {
    hide Doubled;
    if k > 0 {
      ShlAdds(w, n, k - 1);
    }
  }

  lemma Nibble(w: word)
    ensures Shl(w, 4) == w << 4
  {
    hide Doubled;
    FourDoubled(w);
    assert Shl(w, 1) == Doubled(w);
    assert Shl(w, 2) == Doubled(Doubled(w));
    assert Shl(w, 3) == Doubled(Doubled(Doubled(w)));
  }

  lemma FourDoubled(w: word)
    ensures Doubled(Doubled(Doubled(Doubled(w)))) == w << 4
  {
  }

  lemma Bit32()
    ensures Shl(1, 32) == 0x1_0000_0000
  {
    hide Shl, Doubled;
    Nibble(1);
    Nibble(0x10);
    Nibble(0x100);
    Nibble(0x1000);
    Nibble(0x1_0000);
    Nibble(0x10_0000);
    Nibble(0x100_0000);
    Nibble(0x1000_0000);
    ShlAdds(1, 4, 4);
    ShlAdds(1, 8, 4);
    ShlAdds(1, 12, 4);
    ShlAdds(1, 16, 4);
    ShlAdds(1, 20, 4);
    ShlAdds(1, 24, 4);
    ShlAdds(1, 28, 4);
  }

  lemma Bit63()
    ensures Shl(1, 63) == 0x8000_0000_0000_0000
  {
    hide Shl, Doubled;
    Bit32();
    Nibble(0x1_0000_0000);
    Nibble(0x10_0000_0000);
    Nibble(0x100_0000_0000);
    Nibble(0x1000_0000_0000);
    Nibble(0x1_0000_0000_0000);
    Nibble(0x10_0000_0000_0000);
    Nibble(0x100_0000_0000_0000);
    ShlAdds(1, 32, 4);
    ShlAdds(1, 36, 4);
    ShlAdds(1, 40, 4);
    ShlAdds(1, 44, 4);
    ShlAdds(1, 48, 4);
    ShlAdds(1, 52, 4);
    ShlAdds(1, 56, 4);
    ShlAdds(1, 60, 3);
    LastThree();
  }

  lemma LastThree()
    ensures Shl(0x1000_0000_0000_0000, 3) == 0x8000_0000_0000_0000
  {
    assert Shl(0x1000_0000_0000_0000, 1) == 0x2000_0000_0000_0000;
    assert Shl(0x1000_0000_0000_0000, 2) == 0x4000_0000_0000_0000;
  }

  lemma {:induction false} ShlZero(n: nat)
    ensures Shl(0, n) == 0
  {
    if n > 0 {
      ShlZero(n - 1);
    }
  }

  lemma BitNonZero(n: nat)
    requires n < 32
    ensures Shl(1, n) != 0
  {
    hide Shl;
    Bit32();
    ShlAdds(1, n, 32 - n);
    ShlZero(32 - n);
  }

  lemma LowBit(w: word)
    ensures !Meets(1, Doubled(w)) && !Meets(Doubled(w), 1)
  {
  }

  lemma BothDoubled(v: word, w: word)
    requires !Meets(v, w)
    ensures !Meets(Doubled(v), Doubled(w))
  {
  }

  lemma {:induction false} BitsApart(a: nat, b: nat)
    requires a != b
    ensures !Meets(Shl(1, a), Shl(1, b))
    decreases a
  {
    hide Doubled, Meets;
    if a == 0 {
      LowBit(Shl(1, b - 1));
    } else if b == 0 {
      LowBit(Shl(1, a - 1));
    } else {
      BitsApart(a - 1, b - 1);
      BothDoubled(Shl(1, a - 1), Shl(1, b - 1));
    }
  }

  lemma DoubledValue(w: word)
    requires !Meets(w, 0x8000_0000_0000_0000)
    ensures Doubled(w) as nat == 2 * w as nat
  {
    NotTop(w);
    ShiftedValue(w);
  }

  lemma NotTop(w: word)
    ensures !Meets(w, 0x8000_0000_0000_0000) <==> w < 0x8000_0000_0000_0000
  {
  }

  /** A one shifted left by `n` is two to the power `n`. */
  lemma {:induction false} ShlValue(n: nat)
    requires n < 64
    ensures Shl(1, n) as nat == Pow2(n)
    decreases n
  {
    hide Doubled, Meets;
    if n > 0 {
      ShlValue(n - 1);
      Bit63();
      BitsApart(n - 1, 63);
      DoubledValue(Shl(1, n - 1));
    }
  }

  lemma SameBit(w: word, m: word)
    requires m != 0
    ensures Meets(With(w, m), m) && !Meets(Without(w, m), m)
    ensures Meets(0xffff_ffff_ffff_ffff, m) && !Meets(0, m)
  {
  }

  lemma Distributes(w: word, other: word, m: word)
    ensures With(w, other) & m == (w & m) | (other & m)
    ensures Without(w, other) & m == (w & m) & !(other & m)
  {
  }

  lemma NoneLost(v: word, none: word)
    requires none == 0
    ensures v | none == v && v & !none == v
  {
  }

  lemma OtherBit(w: word, other: word, m: word)
    requires !Meets(other, m)
    ensures Meets(With(w, other), m) <==> Meets(w, m)
    ensures Meets(Without(w, other), m) <==> Meets(w, m)
  {
    hide With, Without;
    Distributes(w, other, m);
    NoneLost(w & m, other & m);
  }

  // ----- signals

  /** The bit of signal `sig`. */
  function Mask(sig: int): word {
    Shl(1, (sig - 1) % 64)
  }

  predicate Legal(sig: int) { 0 < sig < 32 }

  /** A mask holds signal `sig` when bit `sig - 1` of the number is set. */
  predicate Holds(v: nat, sig: int)
    requires 0 < sig
  {
    BitOf(v, sig - 1)
  }

  function Members(v: nat): set<int> {
    set sig | 0 < sig < 32 && Holds(v, sig)
  }

  datatype Op = Empty | Fill | Add(sig: int) | Del(sig: int)

  /** What an operation should do to the set of signals. */
  function Meant(s: set<int>, op: Op): set<int> {
    match op
    case Empty => {}
    case Fill => set sig | 0 < sig < 32 && Legal(sig)
    case Add(sig) => if Legal(sig) then s + {sig} else s
    case Del(sig) => s - {sig}
  }

  function MeantAll(s: set<int>, ops: seq<Op>): set<int>
    decreases |ops|
  {
    if ops == [] then s else MeantAll(Meant(s, ops[0]), ops[1..])
  }

  function Done(w: word, op: Op): word {
    match op
    case Empty => 0
    case Fill => 0xffff_ffff_ffff_ffff
    case Add(sig) => if Legal(sig) then With(w, Mask(sig)) else w
    case Del(sig) => if Legal(sig) then Without(w, Mask(sig)) else w
  }

  function DoneAll(w: word, ops: seq<Op>): word
    decreases |ops|
  {
    if ops == [] then w else DoneAll(Done(w, ops[0]), ops[1..])
  }

  /** Setting the bit of a signal sets that bit of the number and no other. */
  lemma AddBit(w: word, sig: int, n: nat)
    requires 0 < sig < 32 && n < 64
    ensures BitOf(NatOf(With(w, Mask(sig))), n) <==> n == sig - 1 || BitOf(NatOf(w), n)
  {
    hide BitOf, Meets, With, Shl;
    BitIsTested(With(w, Mask(sig)), n);
    BitIsTested(w, n);
    if n == sig - 1 {
      BitNonZero(n);
      SameBit(w, Shl(1, n));
    } else {
      BitsApart(sig - 1, n);
      OtherBit(w, Shl(1, sig - 1), Shl(1, n));
    }
  }

  lemma DelBit(w: word, sig: int, n: nat)
    requires 0 < sig < 32 && n < 64
    ensures BitOf(NatOf(Without(w, Mask(sig))), n) <==> n != sig - 1 && BitOf(NatOf(w), n)
  {
    hide BitOf, Meets, Without, Shl;
    BitIsTested(Without(w, Mask(sig)), n);
    BitIsTested(w, n);
    if n == sig - 1 {
      BitNonZero(n);
      SameBit(w, Shl(1, n));
    } else {
      BitsApart(sig - 1, n);
      OtherBit(w, Shl(1, sig - 1), Shl(1, n));
    }
  }

  /** Added to the empty set, signal `sig` gives two to the power `sig - 1`. */
  lemma AddToEmpty(sig: int)
    requires 0 < sig < 32
    ensures With(0, Mask(sig)) as nat == Pow2(sig - 1)
  {
    hide Shl;
    ShlValue(sig - 1);
    NoneLost(Shl(1, sig - 1), 0);
    WithNothing(Shl(1, sig - 1));
  }

  lemma ZeroWord(w: word)
    requires w as nat == 0
    ensures w == 0
  {
  }

  lemma WithNothing(m: word)
    ensures With(0, m) == m
  {
  }

  lemma FullAndEmpty(n: nat)
    requires n < 32
    ensures BitOf(NatOf(0xffff_ffff_ffff_ffff), n) && !BitOf(NatOf(0), n)
  {
    hide BitOf, Shl, Meets;
    BitIsTested(0xffff_ffff_ffff_ffff, n);
    BitIsTested(0, n);
    BitNonZero(n);
    SameBit(0, Shl(1, n));
  }

  /** One operation on one signal. */
  lemma OpOnSignal(w: word, op: Op, sig: int)
    requires 0 < sig < 32
    ensures BitOf(NatOf(Done(w, op)), sig - 1) <==> sig in Meant(Members(NatOf(w)), op)
  {
    hide NatOf, With, Without, Mask, BitOf;
    FullAndEmpty(sig - 1);
    if op.Add? && 0 < op.sig < 32 {
      AddBit(w, op.sig, sig - 1);
    } else if op.Del? && 0 < op.sig < 32 {
      DelBit(w, op.sig, sig - 1);
    }
  }

  /** After any sequence of operations the mask stands for the set they mean. */
  lemma {:induction false} OpsRefine(w: word, ops: seq<Op>)
    ensures Members(NatOf(DoneAll(w, ops))) == MeantAll(Members(NatOf(w)), ops)
    decreases |ops|
  {
    hide NatOf, BitOf, Done;
    if ops != [] {
      var v := NatOf(Done(w, ops[0]));
      forall sig | 0 < sig < 32
        ensures Holds(v, sig) <==> sig in Meant(Members(NatOf(w)), ops[0])
      {
        OpOnSignal(w, ops[0], sig);
      }
      assert Members(v) == Meant(Members(NatOf(w)), ops[0]);
      OpsRefine(Done(w, ops[0]), ops[1..]);
    }
  }

  // ----- the library

  lemma PackOfBytes(w: word)
    ensures Pack(Bytes(w)) == w
  {
  }

  /** A sigset_t in memory, eight bytes. */
  class SigSet {
    const bytes: array<byte>

    ghost predicate Valid() {
      bytes.Length == 8
    }

    ghost function Bits(): word
      reads bytes
      requires Valid()
    {
      Pack(bytes[..])
    }

    /** The number in memory, least significant byte first. */
    ghost function Number(): nat
      reads bytes
    {
      Value(bytes[..])
    }

    lemma NumberOfBits()
      requires Valid()
      ensures Bits() as nat == Number()
    {
      hide Pack, Value;
      PackValue(bytes[..]);
    }

    constructor ()
      ensures Valid() && fresh(bytes)
    {
      bytes := new byte[8];
    }

    method Get() returns (w: word)
      requires Valid()
      ensures w == Bits()
    {
      w := Pack(bytes[..]);
    }

    method Put(w: word)
      requires Valid()
      modifies bytes
      ensures Bits() == w
    {
      hide Pack, Bytes;
      var s := Bytes(w);
      for i := 0 to 8
        invariant forall k :: 0 <= k < i ==> bytes[k] == s[k]
      {
        bytes[i] := s[i];
      }
      assert bytes[..] == s;
      PackOfBytes(w);
    }
  }

  /** An `int` stored in an `unsigned char`. */
  function Narrow(c: int): byte {
    (c % 0x100) as byte
  }

  lemma ByteOfNumber(b: byte)
    ensures Narrow(b as int) == b
  {
  }

  lemma NarrowAgain(c: int, k: int)
    ensures Narrow(c + 0x100 * k) == Narrow(c)
  {
    assert (c + 0x100 * k) % 0x100 == c % 0x100;
  }

  /** It keeps the low byte, whatever the rest of the `int` is. */
  lemma NarrowValue(b: byte, k: int)
    ensures Narrow(b as int + 0x100 * k) == b
  {
    hide Narrow;
    NarrowAgain(b as int, k);
    ByteOfNumber(b);
  }

  /** `memset`: the first `n` bytes become `c`, the rest stay. */
  method Memset(s: array<byte>, c: int, n: nat) returns (r: array<byte>)
    requires n <= s.Length
    modifies s
    ensures r == s && s[..] == seq(n, _ => Narrow(c)) + old(s[n..])
  {
    hide Narrow;
    var i := 0;
    while i < n
      invariant 0 <= i <= n
      invariant forall k :: 0 <= k < i ==> s[k] == Narrow(c)
      invariant s[i..] == old(s[i..])
    {
      s[i] := Narrow(c);
      i := i + 1;
    }
    r := s;
  }

  lemma Uniform()
    ensures Pack([0, 0, 0, 0, 0, 0, 0, 0]) == 0
    ensures Pack([0xff, 0xff, 0xff, 0xff, 0xff, 0xff, 0xff, 0xff]) == 0xffff_ffff_ffff_ffff
    ensures Narrow(0) == 0 && Narrow(0xff) == 0xff
  {
  }

  class Library {
    var errno: int

    /** The return every wrapper ends with. */
    method Return(ret: int) returns (r: int)
      modifies this
      ensures if ret < 0 then errno == -ret && r == -1 else errno == 0 && r == ret
    {
      errno := 0;
      if ret < 0 {
        errno := -ret;
        return -1;
      }
      return ret;
    }

    method SigEmptySet(s: SigSet?) returns (r: int)
      requires s != null ==> s.Valid()
      modifies this, if s == null then {} else {s.bytes}
      ensures s == null ==> r == -1 && errno == 22
      ensures s != null ==> r == 0 && errno == 0 && s.Number() == 0 && s.Bits() == Done(old(s.Bits()), Empty)
    {
      hide Pack, Narrow, Value;
      if s == null {
        r := Return(-EINVAL);
        return;
      }
      var _ := Memset(s.bytes, 0, 8);
      Uniform();
      assert s.bytes[..] == [0, 0, 0, 0, 0, 0, 0, 0];
      s.NumberOfBits();
      r := Return(0);
    }

    method SigFillSet(s: SigSet?) returns (r: int)
      requires s != null ==> s.Valid()
      modifies this, if s == null then {} else {s.bytes}
      ensures s == null ==> r == -1 && errno == 22
      ensures s != null ==> r == 0 && errno == 0 && s.Number() == 0xffff_ffff_ffff_ffff
      ensures s != null ==> s.Bits() == Done(old(s.Bits()), Fill)
    {
      hide Pack, Narrow, Value;
      if s == null {
        r := Return(-EINVAL);
        return;
      }
      var _ := Memset(s.bytes, 0xff, 8);
      Uniform();
      assert s.bytes[..] == [0xff, 0xff, 0xff, 0xff, 0xff, 0xff, 0xff, 0xff];
      s.NumberOfBits();
      r := Return(0);
    }

    method SigAddSet(s: SigSet?, sig: int) returns (r: int)
      requires s != null ==> s.Valid()
      modifies this, if s == null then {} else {s.bytes}
      ensures if s == null || sig <= 0 || sig >= 32 then r == -1 && errno == 22 else r == 0 && errno == 0
      ensures s != null && !(0 < sig < 32) ==> s.bytes[..] == old(s.bytes[..])
      ensures s != null && 0 < sig < 32 ==>
                forall n | 0 <= n < 64 :: BitOf(s.Number(), n) <==> n == sig - 1 || BitOf(old(s.Number()), n)
      ensures s != null && 0 < sig < 32 && old(s.Number()) == 0 ==> s.Number() == Pow2(sig - 1)
      ensures s != null ==> s.Bits() == Done(old(s.Bits()), Add(sig))
    {
      hide Pack, Mask, With, Value, BitOf, Pow2;
      if s == null || sig <= 0 || sig >= 32 {
        r := Return(-EINVAL);
        return;
      }
      var w := s.Get();
      s.NumberOfBits();
      s.Put(With(w, Mask(sig)));
      s.NumberOfBits();
      forall n | 0 <= n < 64
        ensures BitOf(s.Number(), n) <==> n == sig - 1 || BitOf(old(s.Number()), n)
      {
        AddBit(w, sig, n);
      }
      if w as nat == 0 {
        ZeroWord(w);
        AddToEmpty(sig);
      }
      r := Return(0);
    }

    method SigDelSet(s: SigSet?, sig: int) returns (r: int)
      requires s != null ==> s.Valid()
      modifies this, if s == null then {} else {s.bytes}
      ensures if s == null || sig <= 0 || sig >= 32 then r == -1 && errno == 22 else r == 0 && errno == 0
      ensures s != null && !(0 < sig < 32) ==> s.bytes[..] == old(s.bytes[..])
      ensures s != null && 0 < sig < 32 ==>
                forall n | 0 <= n < 64 :: BitOf(s.Number(), n) <==> n != sig - 1 && BitOf(old(s.Number()), n)
      ensures s != null ==> s.Bits() == Done(old(s.Bits()), Del(sig))
    {
      hide Pack, Mask, Without, Value, BitOf, Pow2;
      if s == null || sig <= 0 || sig >= 32 {
        r := Return(-EINVAL);
        return;
      }
      var w := s.Get();
      s.NumberOfBits();
      s.Put(Without(w, Mask(sig)));
      s.NumberOfBits();
      forall n | 0 <= n < 64
        ensures BitOf(s.Number(), n) <==> n != sig - 1 && BitOf(old(s.Number()), n)
      {
        DelBit(w, sig, n);
      }
      r := Return(0);
    }

    /** Agrees with membership; a successful answer leaves errno alone. */
    method SigIsMember(s: SigSet?, sig: int) returns (r: int)
      requires s != null ==> s.Valid()
      modifies this
      ensures s == null || sig <= 0 || sig >= 32 ==> r == -1 && errno == 22
      ensures s != null && 0 < sig < 32 ==>
                r == (if BitOf(s.Number(), sig - 1) then 1 else 0) && errno == old(errno)
    {
      hide Pack, Meets, Value, BitOf, Shl;
      if s == null || sig <= 0 || sig >= 32 {
        r := Return(-EINVAL);
        return;
      }
      var w := s.Get();
      s.NumberOfBits();
      BitIsTested(w, sig - 1);
      r := if Meets(w, Mask(sig)) then 1 else 0;
    }
  }
}
