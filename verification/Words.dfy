/** Bytes, 64-bit words and a 64-bit address space, as the debugger sees them through
    the 8-byte PEEK and POKE requests of ptrace.

    Addresses are naturals below 2^64 with explicit wrap-around. Bytes and words are
    bit-vectors, so the masks of the debugger are written with `&` and `|`. */
module Words {

  type byte = bv8
  type word = bv64

  const SPACE: nat := 0x1_0000_0000_0000_0000
  const TRAP: byte := 0xcc

  type Addr = a: nat | a < SPACE

  type Memory = m: seq<byte> | |m| == SPACE ghost witness seq(SPACE, _ => 0)

  function Wrap(x: int): Addr {
    x % SPACE
  }

  /** How far `i` lies above `a`, going round the address space. */
  function Offset(i: Addr, a: Addr): Addr {
    if i >= a then i - a else i + SPACE - a
  }

  /** The `n` bytes from `a` upwards. */
  function Fetch(m: Memory, a: Addr, n: nat): (s: seq<byte>)
    ensures |s| == n
  {
    seq(n, k requires 0 <= k < n => m[Wrap(a + k)])
  }

  /** `m` with the bytes from `a` upwards overwritten by `s`. */
  function Write(m: Memory, a: Addr, s: seq<byte>): Memory {
    seq(SPACE, i requires 0 <= i < SPACE => if Offset(i, a) < |s| then s[Offset(i, a)] else m[i])
  }

  /** The eight bytes of a word, least significant first. */
  function Bytes(w: word): (s: seq<byte>)
    ensures |s| == 8
  {
    [(w & 0xff) as byte, ((w >> 8) & 0xff) as byte, ((w >> 16) & 0xff) as byte, ((w >> 24) & 0xff) as byte,
     ((w >> 32) & 0xff) as byte, ((w >> 40) & 0xff) as byte, ((w >> 48) & 0xff) as byte, ((w >> 56) & 0xff) as byte]
  }

  function Low(w: word): byte {
    (w & 0xff) as byte
  }

  function Pack(s: seq<byte>): word
    requires |s| == 8
  {
    (s[0] as word) | ((s[1] as word) << 8) | ((s[2] as word) << 16) | ((s[3] as word) << 24) |
    ((s[4] as word) << 32) | ((s[5] as word) << 40) | ((s[6] as word) << 48) | ((s[7] as word) << 56)
  }

  function Peek(m: Memory, a: Addr): word {
    Pack(Fetch(m, a, 8))
  }

  function Poke(m: Memory, a: Addr, w: word): Memory {
    Write(m, a, Bytes(w))
  }

  /** `w` with its low byte replaced by that of `c`, as the debugger masks it. */
  function WithLow(w: word, c: word): word {
    (w & 0xffff_ffff_ffff_ff00) | (c & 0xff)
  }

  function WithTrap(w: word): word {
    (w & 0xffff_ffff_ffff_ff00) | 0xcc
  }

  lemma BytesOfPack(s: seq<byte>)
    requires |s| == 8
    ensures Bytes(Pack(s)) == s
  {
    PackedBytes(s[0], s[1], s[2], s[3], s[4], s[5], s[6], s[7]);
    assert s == [s[0], s[1], s[2], s[3], s[4], s[5], s[6], s[7]];
  }

  lemma PackedBytes(a: byte, b: byte, c: byte, d: byte, e: byte, f: byte, g: byte, h: byte)
    ensures Bytes(Pack([a, b, c, d, e, f, g, h])) == [a, b, c, d, e, f, g, h]
  {
  }

  /** The mask the debugger pokes with replaces the low byte and keeps the other seven. */
  lemma MaskedBytes(w: word, c: word)
    ensures Bytes((w & 0xffff_ffff_ffff_ff00) | (c & 0xff)) == Bytes(w)[0 := Low(c)]
  {
    MaskLow(w, c);
    MaskHigh(w, c);
  }

  lemma MaskLow(w: word, c: word)
    ensures ((w & 0xffff_ffff_ffff_ff00) | (c & 0xff)) & 0xff == c & 0xff
  {
  }

  lemma MaskHigh(w: word, c: word)
    ensures ((w & 0xffff_ffff_ffff_ff00) | (c & 0xff)) >> 8 == w >> 8
    ensures ((w & 0xffff_ffff_ffff_ff00) | (c & 0xff)) >> 16 == w >> 16
    ensures ((w & 0xffff_ffff_ffff_ff00) | (c & 0xff)) >> 24 == w >> 24
    ensures ((w & 0xffff_ffff_ffff_ff00) | (c & 0xff)) >> 32 == w >> 32
    ensures ((w & 0xffff_ffff_ffff_ff00) | (c & 0xff)) >> 40 == w >> 40
    ensures ((w & 0xffff_ffff_ffff_ff00) | (c & 0xff)) >> 48 == w >> 48
    ensures ((w & 0xffff_ffff_ffff_ff00) | (c & 0xff)) >> 56 == w >> 56
  {
  }

  /** Peeking a word, exchanging its low byte and poking it back changes one byte of memory,
      whatever the seven neighbours hold. */
  lemma PokeLow(m: Memory, a: Addr, c: word)
    ensures Poke(m, a, WithLow(Peek(m, a), c)) == m[a := Low(c)]
  {
    var s := Fetch(m, a, 8);
    BytesOfPack(s);
    MaskedBytes(Peek(m, a), c);
    WriteFetched(m, a, Low(c));
  }

  lemma PokeTrap(m: Memory, a: Addr)
    ensures Poke(m, a, WithTrap(Peek(m, a))) == m[a := TRAP]
  {
    PokeLow(m, a, 0xcc);
    assert WithTrap(Peek(m, a)) == WithLow(Peek(m, a), 0xcc) && Low(0xcc) == TRAP;
  }

  lemma WriteFetched(m: Memory, a: Addr, c: byte)
    ensures Write(m, a, Fetch(m, a, 8)[0 := c]) == m[a := c]
  {
    var after := Write(m, a, Fetch(m, a, 8)[0 := c]);
    forall i | 0 <= i < SPACE
      ensures after[i] == m[a := c][i]
    {
      OffsetWraps(i, a);
    }
  }

  lemma OffsetWraps(i: Addr, a: Addr)
    ensures Wrap(a + Offset(i, a)) == i
    ensures Offset(i, a) == 0 <==> i == a
  {
  }

  /** Poking back a word peeked earlier restores the eight bytes it was peeked from. */
  lemma PokeBack(m: Memory, earlier: Memory, a: Addr)
    ensures Poke(m, a, Peek(earlier, a)) == Write(m, a, Fetch(earlier, a, 8))
  {
    BytesOfPack(Fetch(earlier, a, 8));
  }

  // ----- patched memory

  /** Memory with the trap opcode at every address of `b`. */
  function Patch(m: Memory, b: set<Addr>): Memory {
    seq(SPACE, i requires 0 <= i < SPACE => if i in b then TRAP else m[i])
  }

  /** No address of `b` is among the `n` from `a` upwards. */
  ghost predicate Clear(b: set<Addr>, a: Addr, n: nat) {
    forall x | x in b :: Offset(x, a) >= n
  }

  lemma FetchPatched(m: Memory, b: set<Addr>, a: Addr, n: nat)
    requires n < SPACE && Clear(b, a, n)
    ensures Fetch(Patch(m, b), a, n) == Fetch(m, a, n)
  {
    forall k | 0 <= k < n
      ensures Fetch(Patch(m, b), a, n)[k] == Fetch(m, a, n)[k]
    {
      assert Offset(Wrap(a + k), a) == k;
    }
  }

  lemma WritePatched(m: Memory, b: set<Addr>, a: Addr, s: seq<byte>)
    requires Clear(b, a, |s|)
    ensures Write(Patch(m, b), a, s) == Patch(Write(m, a, s), b)
  {
    forall i | 0 <= i < SPACE
      ensures Write(Patch(m, b), a, s)[i] == Patch(Write(m, a, s), b)[i]
    {
    }
  }
}
