/** 32-bit words, the lane masks held in EXEC, VCC and scalar registers, and the
    byte view of a word.  A wave always has 32 lanes. */
module Words {

  type Word = bv32
  type Byte = bv8

  const LANES: nat := 32

  // The shift amount that selects lane i.
  function Idx(i: nat): (k: Word)
    requires i < LANES
    ensures k < 32
  {
    if i == 0 then 0 else if i == 1 then 1 else if i == 2 then 2 else if i == 3 then 3 else
    if i == 4 then 4 else if i == 5 then 5 else if i == 6 then 6 else if i == 7 then 7 else
    if i == 8 then 8 else if i == 9 then 9 else if i == 10 then 10 else if i == 11 then 11 else
    if i == 12 then 12 else if i == 13 then 13 else if i == 14 then 14 else if i == 15 then 15 else
    if i == 16 then 16 else if i == 17 then 17 else if i == 18 then 18 else if i == 19 then 19 else
    if i == 20 then 20 else if i == 21 then 21 else if i == 22 then 22 else if i == 23 then 23 else
    if i == 24 then 24 else if i == 25 then 25 else if i == 26 then 26 else if i == 27 then 27 else
    if i == 28 then 28 else if i == 29 then 29 else if i == 30 then 30 else 31
  }

  lemma IdxInjective(i: nat, j: nat)
    requires i < LANES && j < LANES
    ensures Idx(i) == Idx(j) <==> i == j
  {
  }

  lemma IdxIs(i: nat)
    requires i < LANES
    ensures Idx(i) as int == i
  {
  }

  predicate BitAt(m: Word, k: Word)
    requires k < 32
  {
    (m >> k) & 1 == 1
  }

  // Lane i is set in mask m.
  predicate Bit(m: Word, i: nat)
    requires i < LANES
  {
    BitAt(m, Idx(i))
  }

  function SetAt(m: Word, k: Word): Word
    requires k < 32
  {
    m | (1 << k)
  }

  function SetBit(m: Word, i: nat): Word
    requires i < LANES
  {
    SetAt(m, Idx(i))
  }

  lemma SetAtBits(m: Word, k: Word, j: Word)
    requires k < 32 && j < 32
    ensures BitAt(SetAt(m, k), j) == (BitAt(m, j) || k == j)
  {
  }

  lemma SetBitBits(m: Word, i: nat, j: nat)
    requires i < LANES && j < LANES
    ensures Bit(SetBit(m, i), j) == (Bit(m, j) || i == j)
  {
    hide Idx, BitAt, SetAt;
    IdxInjective(i, j);
    SetAtBits(m, Idx(i), Idx(j));
  }

  // Every lane of m is a lane of `all`.
  predicate Within(m: Word, all: Word) {
    m & !all == 0
  }

  lemma ZeroWithin(m: Word)
    ensures Within(0, m)
  {
  }

  lemma SetAtWithin(m: Word, all: Word, k: Word)
    requires k < 32 && Within(m, all) && BitAt(all, k)
    ensures Within(SetAt(m, k), all)
  {
  }

  lemma SetBitWithin(m: Word, all: Word, i: nat)
    requires i < LANES && Within(m, all) && Bit(all, i)
    ensures Within(SetBit(m, i), all)
  {
    hide Idx, BitAt, SetAt, Within;
    SetAtWithin(m, all, Idx(i));
  }

  lemma NoBitAt(k: Word)
    requires k < 32
    ensures !BitAt(0, k)
  {
  }

  lemma NoBits(j: nat)
    requires j < LANES
    ensures !Bit(0, j)
  {
    hide Idx, BitAt;
    NoBitAt(Idx(j));
  }

  // The mask 1 is lane 0 alone.
  lemma OnlyLaneZero(l: nat)
    requires l < LANES
    ensures Bit(1, l) <==> l == 0
  {
    hide BitAt;
    OneAt(Idx(l));
    IdxInjective(l, 0);
    assert Idx(0) == 0;
  }

  lemma OneAt(k: Word)
    requires k < 32
    ensures BitAt(1, k) <==> k == 0
  {
  }

  lemma SomeBit(m: Word)
    requires m != 0
    ensures exists i: nat :: i < LANES && Bit(m, i)
  {
    hide Bit;
    SomeByte(m);
    if m & 0xFFFF != 0 {
      SomeBitOfLow(m);
    } else if m & 0xFF_0000 != 0 {
      SomeBitOfThird(m);
    } else {
      SomeBitOfTop(m);
    }
  }

  lemma SomeByte(m: Word)
    requires m != 0
    ensures m & 0xFFFF != 0 || m & 0xFF_0000 != 0 || m & 0xFF00_0000 != 0
  {
  }

  lemma SomeBitOfLow(m: Word)
    requires m & 0xFFFF != 0
    ensures exists i: nat :: i < LANES && Bit(m, i)
  {
    assert
      Bit(m, 0) || Bit(m, 1) || Bit(m, 2) || Bit(m, 3) || Bit(m, 4) || Bit(m, 5) || Bit(m, 6) || Bit(m, 7) ||
      Bit(m, 8) || Bit(m, 9) || Bit(m, 10) || Bit(m, 11) || Bit(m, 12) || Bit(m, 13) || Bit(m, 14) || Bit(m, 15);
  }

  lemma SomeBitOfThird(m: Word)
    requires m & 0xFF_0000 != 0
    ensures exists i: nat :: i < LANES && Bit(m, i)
  {
    assert
      Bit(m, 16) || Bit(m, 17) || Bit(m, 18) || Bit(m, 19) || Bit(m, 20) || Bit(m, 21) || Bit(m, 22) || Bit(m, 23);
  }

  lemma SomeBitOfTop(m: Word)
    requires m & 0xFF00_0000 != 0
    ensures exists i: nat :: i < LANES && Bit(m, i)
  {
    assert
      Bit(m, 24) || Bit(m, 25) || Bit(m, 26) || Bit(m, 27) || Bit(m, 28) || Bit(m, 29) || Bit(m, 30) || Bit(m, 31);
  }

  /** The mask of the first n lanes that are set in `active` and satisfy p. */
  function MaskUpTo(active: Word, p: seq<bool>, n: nat): Word
    requires |p| == LANES && n <= LANES
  {
    if n == 0 then 0
    else if Bit(active, n - 1) && p[n - 1] then SetBit(MaskUpTo(active, p, n - 1), n - 1)
    else MaskUpTo(active, p, n - 1)
  }

  lemma {:induction false} MaskBits(active: Word, p: seq<bool>, n: nat, j: nat)
    requires |p| == LANES && n <= LANES && j < LANES
    ensures Bit(MaskUpTo(active, p, n), j) == (j < n && Bit(active, j) && p[j])
  {
    hide Bit, SetBit;
    if n == 0 {
      NoBits(j);
    } else {
      MaskBits(active, p, n - 1, j);
      SetBitBits(MaskUpTo(active, p, n - 1), n - 1, j);
    }
  }

  lemma {:induction false} MaskWithin(active: Word, p: seq<bool>, n: nat)
    requires |p| == LANES && n <= LANES
    ensures Within(MaskUpTo(active, p, n), active)
  {
    hide Within, SetBit, Bit;
    ZeroWithin(active);
    if n > 0 {
      MaskWithin(active, p, n - 1);
      if Bit(active, n - 1) {
        SetBitWithin(MaskUpTo(active, p, n - 1), active, n - 1);
      }
    }
  }

  // Byte k of a word, little endian.
  function ByteOf(w: Word, k: nat): Byte
    requires k < 4
  {
    if k == 0 then (w & 0xFF) as Byte
    else if k == 1 then ((w >> 8) & 0xFF) as Byte
    else if k == 2 then ((w >> 16) & 0xFF) as Byte
    else ((w >> 24) & 0xFF) as Byte
  }

  function Wide(b: Byte): Word {
    b as Word
  }

  function ByteAt(bytes: seq<Byte>, k: nat): Word {
    if k < |bytes| then Wide(bytes[k]) else 0
  }

  // Dword j of a little-endian byte string; bytes past its end read as zero.
  function Dword(bytes: seq<Byte>, j: nat): Word {
    ByteAt(bytes, 4 * j) | (ByteAt(bytes, 4 * j + 1) << 8)
    | (ByteAt(bytes, 4 * j + 2) << 16) | (ByteAt(bytes, 4 * j + 3) << 24)
  }

  // The integer a printed literal denotes, cut to 32 bits.
  function Trunc(v: int): Word {
    (v % 0x1_0000_0000) as Word
  }

  lemma WordBack(w: Word)
    ensures Wide(ByteOf(w, 0)) | (Wide(ByteOf(w, 1)) << 8) | (Wide(ByteOf(w, 2)) << 16) | (Wide(ByteOf(w, 3)) << 24) == w
  {
  }

  // ---------------- words as numbers ----------------

  lemma BytesAsNumber(a: Byte, b: Byte, c: Byte, d: Byte)
    ensures ((a as Word) | ((b as Word) << 8) | ((c as Word) << 16) | ((d as Word) << 24)) as int
      == (a as int) + 0x100 * (b as int) + 0x1_0000 * (c as int) + 0x100_0000 * (d as int)
  {
  }

  lemma Joined(a: Byte, b: Byte, c: Byte, d: Byte) returns (w: Word)
    ensures w as int == (a as int) + 0x100 * (b as int) + 0x1_0000 * (c as int) + 0x100_0000 * (d as int)
  {
    BytesAsNumber(a, b, c, d);
    w := (a as Word) | ((b as Word) << 8) | ((c as Word) << 16) | ((d as Word) << 24);
  }

  lemma NumberBack(w: Word)
    ensures (w as int) as Word == w
  {
  }

  lemma NextByte(b: Byte)
    requires b < 0xFF
    ensures (b + 1) as int == b as int + 1
  {
  }

  lemma {:induction false} ByteFor(n: nat) returns (b: Byte)
    requires n < 0x100
    ensures b as int == n
  {
    b := 0;
    if n > 0 {
      b := ByteFor(n - 1);
      NextByte(b);
      b := b + 1;
    }
  }

  lemma Digits(n: nat) returns (a: nat, b: nat, c: nat, d: nat)
    requires n < 0x1_0000_0000
    ensures a < 0x100 && b < 0x100 && c < 0x100 && d < 0x100
    ensures n == a + 0x100 * b + 0x1_0000 * c + 0x100_0000 * d
  {
    var m := n / 0x100;
    var k := m / 0x100;
    a, b, c, d := n % 0x100, m % 0x100, k % 0x100, k / 0x100;
  }

  // Every 32-bit number is the number of some word.
  lemma WordFor(n: nat) returns (w: Word)
    requires n < 0x1_0000_0000
    ensures w as int == n
  {
    var a, b, c, d := Digits(n);
    var p := ByteFor(a);
    var q := ByteFor(b);
    var r := ByteFor(c);
    var s := ByteFor(d);
    w := Joined(p, q, r, s);
  }

  /** Cutting to 32 bits is taking the remainder. */
  lemma TruncIs(v: int)
    ensures Trunc(v) as int == v % 0x1_0000_0000
  {
    var w := WordFor(v % 0x1_0000_0000);
    NumberBack(w);
  }
}
