/** Words as numbers: what shifting, masking and packing mean in arithmetic. */
module Binary {
  import opened Words

  function Pow2(n: nat): (p: nat)
    ensures p > 0
  {
    if n == 0 then 1 else 2 * Pow2(n - 1)
  }

  /** Bit `n` of a number, counted from 0. */
  predicate BitOf(v: nat, n: nat) {
    v / Pow2(n) % 2 == 1
  }

  function NatOf(w: word): nat { w as nat }

  function Doubled(w: word): word { w << 1 }

  predicate Meets(w: word, m: word) { w & m != 0 }

  /** `w` shifted left by `n`, one place at a time. */
  function Shl(w: word, n: nat): word
    decreases n
  {
    if n == 0 then w else Doubled(Shl(w, n - 1))
  }

  // ----- division

  lemma MulAtLeast(k: int, d: int)
    requires k >= 1 && d >= 0
    ensures k * d >= d
  {
    assert (k - 1) * d >= 0;
  }

  lemma MulSmall(k: int, d: int)
    requires -d < k * d < d
    ensures k == 0
  {
    if k >= 1 {
      MulAtLeast(k, d);
    } else if k <= -1 {
      MulAtLeast(-k, d);
    }
  }

  lemma QuotientIs(x: nat, d: nat, q: nat, r: nat)
    requires d > 0 && x == q * d + r && r < d
    ensures x / d == q
  {
    var (q', r') := (x / d, x % d);
    assert (q - q') * d == r' - r by {
      assert x == q' * d + r';
      assert (q - q') * d == q * d - q' * d;
    }
    MulSmall(q - q', d);
  }

  lemma HalfThenDivide(x: nat, p: nat)
    requires p > 0
    ensures x / (2 * p) == x / 2 / p
  {
    var (q, r) := (x / 2 / p, x / 2 % p);
    assert x / 2 == q * p + r;
    assert q * (2 * p) == 2 * (q * p);
    QuotientIs(x, 2 * p, q, 2 * r + x % 2);
  }

  lemma BitOfHalf(v: nat, n: nat)
    ensures BitOf(v, n + 1) <==> BitOf(v / 2, n)
  {
    HalfThenDivide(v, Pow2(n));
  }

  // ----- one bit of a word

  lemma ShiftedValue(w: word)
    requires w < 0x8000_0000_0000_0000
    ensures (w << 1) as nat == 2 * w as nat
  {
  }

  lemma ShiftedOddValue(w: word)
    requires w < 0x8000_0000_0000_0000
    ensures ((w << 1) | 1) as nat == 2 * w as nat + 1
  {
  }

  lemma HalfAndBit(w: word)
    ensures (w >> 1) < 0x8000_0000_0000_0000
    ensures w == if w & 1 == 1 then ((w >> 1) << 1) | 1 else (w >> 1) << 1
  {
  }

  lemma TwoHalves(w: word)
    ensures w as nat == 2 * (w >> 1) as nat + if w & 1 == 1 then 1 else 0
  {
    HalfAndBit(w);
    ShiftedValue(w >> 1);
    ShiftedOddValue(w >> 1);
  }

  lemma HalfOf(v: nat, half: nat, odd: bool)
    requires v == 2 * half + if odd then 1 else 0
    ensures half == v / 2 && (odd <==> v % 2 == 1)
  {
  }

  lemma HalfValue(w: word)
    ensures (w >> 1) as nat == w as nat / 2 && (w & 1 == 1 <==> w as nat % 2 == 1)
  {
    TwoHalves(w);
    HalfOf(w as nat, (w >> 1) as nat, w & 1 == 1);
  }

  lemma MeetsHalf(w: word, m: word)
    ensures Meets(w, Doubled(m)) <==> Meets(w >> 1, m)
  {
  }

  lemma MeetsOne(w: word)
    ensures Meets(w, 1) <==> w & 1 == 1
  {
  }

  /** Testing against a one shifted left by `n` is reading bit `n` of the number. */
  lemma {:induction false} BitIsTested(w: word, n: nat)
    ensures Meets(w, Shl(1, n)) <==> BitOf(w as nat, n)
    decreases n
  {
    hide Doubled, Meets, BitOf;
    HalfValue(w);
    if n == 0 {
      MeetsOne(w);
      LowestBit(w as nat);
    } else {
      MeetsHalf(w, Shl(1, n - 1));
      BitIsTested(w >> 1, n - 1);
      BitOfHalf(w as nat, n - 1);
    }
  }

  lemma LowestBit(v: nat)
    ensures BitOf(v, 0) <==> v % 2 == 1
  {
  }

  // ----- the bytes of a word

  /** The number whose digits to base 256 are `s`, the least significant first. */
  function Value(s: seq<byte>): nat {
    if s == [] then 0 else s[0] as nat + 0x100 * Value(s[1..])
  }

  lemma ValueCons(b: byte, s: seq<byte>)
    ensures Value([b] + s) == b as nat + 0x100 * Value(s)
  {
    assert ([b] + s)[1..] == s;
  }

  function Pushed(w: word, b: byte): word { (w << 8) | (b as word) }

  /** `w` stands for `v`, and another byte fits below it. */
  predicate Stands(w: word, v: nat) { NatOf(w) == v }

  predicate Fits(w: word) { w < 0x100_0000_0000_0000 }

  lemma PushedValue(w: word, b: byte)
    requires Fits(w)
    ensures NatOf(Pushed(w, b)) == 0x100 * NatOf(w) + b as nat
  {
  }

  lemma PackedInSteps(a: byte, b: byte, c: byte, d: byte, e: byte, f: byte, g: byte, h: byte)
    ensures var w1 := Pushed(0, h); var w2 := Pushed(w1, g); var w3 := Pushed(w2, f); var w4 := Pushed(w3, e);
            var w5 := Pushed(w4, d); var w6 := Pushed(w5, c); var w7 := Pushed(w6, b);
            && Fits(0) && Fits(w1) && Fits(w2) && Fits(w3) && Fits(w4) && Fits(w5) && Fits(w6) && Fits(w7)
            && Pack([a, b, c, d, e, f, g, h]) == Pushed(w7, a)
  {
  }

  lemma FourBytes(w: word, s: seq<byte>, a: byte, b: byte, c: byte, d: byte)
    requires Stands(w, Value(s)) && Fits(w)
    requires var x := Pushed(w, d); var y := Pushed(x, c); Fits(x) && Fits(y) && Fits(Pushed(y, b))
    ensures Stands(Pushed(Pushed(Pushed(Pushed(w, d), c), b), a), Value([a, b, c, d] + s))
  {
    hide Pushed, Fits, Stands, Value;
    Prepend(w, d, s);
    Prepend(Pushed(w, d), c, [d] + s);
    assert [c] + ([d] + s) == [c, d] + s;
    Prepend(Pushed(Pushed(w, d), c), b, [c, d] + s);
    assert [b] + ([c, d] + s) == [b, c, d] + s;
    Prepend(Pushed(Pushed(Pushed(w, d), c), b), a, [b, c, d] + s);
    assert [a] + ([b, c, d] + s) == [a, b, c, d] + s;
  }

  lemma EightBytes(a: byte, b: byte, c: byte, d: byte, e: byte, f: byte, g: byte, h: byte)
    ensures Stands(Pack([a, b, c, d, e, f, g, h]), Value([a, b, c, d, e, f, g, h]))
  {
    hide Pack, Pushed, Fits, Stands, Value;
    PackedInSteps(a, b, c, d, e, f, g, h);
    NothingValue();
    FourBytes(0, [], e, f, g, h);
    assert [e, f, g, h] + [] == [e, f, g, h];
    FourBytes(Pushed(Pushed(Pushed(Pushed(0, h), g), f), e), [e, f, g, h], a, b, c, d);
    assert [a, b, c, d] + [e, f, g, h] == [a, b, c, d, e, f, g, h];
  }

  lemma NothingValue()
    ensures Stands(0, Value([]))
  {
  }

  lemma Prepend(w: word, b: byte, s: seq<byte>)
    requires Stands(w, Value(s)) && Fits(w)
    ensures Stands(Pushed(w, b), Value([b] + s))
  {
    hide NatOf, Fits, Pushed, Value;
    ValueCons(b, s);
    PushedValue(w, b);
  }

  /** A packed word is the number its bytes stand for, least significant first. */
  lemma PackValue(s: seq<byte>)
    requires |s| == 8
    ensures Pack(s) as nat == Value(s)
  {
    hide Pack, Value;
    assert s == [s[0], s[1], s[2], s[3], s[4], s[5], s[6], s[7]];
    EightBytes(s[0], s[1], s[2], s[3], s[4], s[5], s[6], s[7]);
  }

  /** PEEK reads eight bytes of memory as a little-endian number. */
  lemma PeekValue(m: Memory, a: Addr)
    ensures Peek(m, a) as nat == Value(seq(8, k requires 0 <= k < 8 => m[Wrap(a + k)]))
  {
    hide Pack, Value;
    PackValue(Fetch(m, a, 8));
    assert Fetch(m, a, 8) == seq(8, k requires 0 <= k < 8 => m[Wrap(a + k)]);
  }
}
