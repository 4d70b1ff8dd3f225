/** SHA-256 as sections 5.1.1, 5.2.1 and 6.2.2 of FIPS 180-4 define it. */
module Sha256 {
  import opened Words
  import opened Powers

  type State = h: seq<Word> | |h| == 8 witness [0, 0, 0, 0, 0, 0, 0, 0]
  type Text64 = b: seq<Byte> | |b| == 64 witness seq(64, i => 0)

  const INITIAL: State := [
    0x6a09e667, 0xbb67ae85, 0x3c6ef372, 0xa54ff53a, 0x510e527f, 0x9b05688c, 0x1f83d9ab, 0x5be0cd19]

  const K: seq<Word> := [
    0x428a2f98, 0x71374491, 0xb5c0fbcf, 0xe9b5dba5, 0x3956c25b, 0x59f111f1,
    0x923f82a4, 0xab1c5ed5, 0xd807aa98, 0x12835b01, 0x243185be, 0x550c7dc3,
    0x72be5d74, 0x80deb1fe, 0x9bdc06a7, 0xc19bf174, 0xe49b69c1, 0xefbe4786,
    0x0fc19dc6, 0x240ca1cc, 0x2de92c6f, 0x4a7484aa, 0x5cb0a9dc, 0x76f988da,
    0x983e5152, 0xa831c66d, 0xb00327c8, 0xbf597fc7, 0xc6e00bf3, 0xd5a79147,
    0x06ca6351, 0x14292967, 0x27b70a85, 0x2e1b2138, 0x4d2c6dfc, 0x53380d13,
    0x650a7354, 0x766a0abb, 0x81c2c92e, 0x92722c85, 0xa2bfe8a1, 0xa81a664b,
    0xc24b8b70, 0xc76c51a3, 0xd192e819, 0xd6990624, 0xf40e3585, 0x106aa070,
    0x19a4c116, 0x1e376c08, 0x2748774c, 0x34b0bcb5, 0x391c0cb3, 0x4ed8aa4a,
    0x5b9cca4f, 0x682e6ff3, 0x748f82ee, 0x78a5636f, 0x84c87814, 0x8cc70208,
    0x90befffa, 0xa4506ceb, 0xbef9a3f7, 0xc67178f2]

  // ---------------- section 4.1.2 ----------------

  // Addition modulo 2^32.
  function Plus(x: Word, y: Word): Word { x + y }

  function Rotr(x: Word, n: bv6): Word
    requires 0 < n < 32
  {
    (x >> n) | (x << (32 - n))
  }

  function Ch(x: Word, y: Word, z: Word): Word { (x & y) ^ (!x & z) }
  function Maj(x: Word, y: Word, z: Word): Word { (x & y) ^ (x & z) ^ (y & z) }
  function BigSigma0(x: Word): Word { Rotr(x, 2) ^ Rotr(x, 13) ^ Rotr(x, 22) }
  function BigSigma1(x: Word): Word { Rotr(x, 6) ^ Rotr(x, 11) ^ Rotr(x, 25) }
  function SmallSigma0(x: Word): Word { Rotr(x, 7) ^ Rotr(x, 18) ^ (x >> 3) }
  function SmallSigma1(x: Word): Word { Rotr(x, 17) ^ Rotr(x, 19) ^ (x >> 10) }

  // ---------------- section 6.2.2 ----------------

  // Four bytes, big endian.
  function BigEndian(b0: Byte, b1: Byte, b2: Byte, b3: Byte): Word {
    (Wide(b0) << 24) | (Wide(b1) << 16) | (Wide(b2) << 8) | Wide(b3)
  }

  // Step 1: the message schedule.
  function Schedule(m: Text64, t: nat): Word
    requires t < 64
  {
    if t < 16 then BigEndian(m[4 * t], m[4 * t + 1], m[4 * t + 2], m[4 * t + 3])
    else Sum4(SmallSigma1(Schedule(m, t - 2)), Schedule(m, t - 7), SmallSigma0(Schedule(m, t - 15)), Schedule(m, t - 16))
  }

  function Sum4(x: Word, y: Word, z: Word, u: Word): Word {
    Plus(Plus(Plus(x, y), z), u)
  }

  datatype Regs = Regs(a: Word, b: Word, c: Word, d: Word, e: Word, f: Word, g: Word, h: Word)

  function Load(s: State): Regs {
    Regs(s[0], s[1], s[2], s[3], s[4], s[5], s[6], s[7])
  }

  // Step 3, once.
  function Round(r: Regs, k: Word, w: Word): Regs {
    var t1 := Plus(Sum4(r.h, BigSigma1(r.e), Ch(r.e, r.f, r.g), k), w);
    var t2 := Plus(BigSigma0(r.a), Maj(r.a, r.b, r.c));
    Regs(Plus(t1, t2), r.a, r.b, r.c, Plus(r.d, t1), r.e, r.f, r.g)
  }

  function Rounds(r: Regs, m: Text64, n: nat): Regs
    requires n <= 64
  {
    if n == 0 then r else Round(Rounds(r, m, n - 1), K[n - 1], Schedule(m, n - 1))
  }

  // Step 4.
  function Compress(s: State, m: Text64): State {
    Sum(s, Rounds(Load(s), m, 64))
  }

  function Sum(s: State, r: Regs): State {
    [Plus(s[0], r.a), Plus(s[1], r.b), Plus(s[2], r.c), Plus(s[3], r.d),
     Plus(s[4], r.e), Plus(s[5], r.f), Plus(s[6], r.g), Plus(s[7], r.h)]
  }

  // The state after n blocks of the text.
  function Fold(text: seq<Byte>, n: nat): State
    requires 64 * n <= |text|
  {
    if n == 0 then INITIAL else Compress(Fold(text, n - 1), text[64 * (n - 1)..64 * n])
  }

  // ---------------- section 5.1.1 ----------------

  // Zeros between the one bit and the length field.
  function ZeroCount(len: nat): (k: nat)
    ensures k < 64 && (len + 1 + k) % 64 == 56
  {
    (119 - len % 64) % 64
  }

  // Byte i of the 64-bit big-endian bit count, i == 0 first.
  function LengthByte(len: nat, i: nat): Byte
    requires i < 8
  {
    ByteIn((8 * len) % 0x1_0000_0000_0000_0000, 56 - 8 * i)
  }

  function ByteIn(x: nat, shift: nat): Byte {
    (x / Pow2(shift) % 256) as Byte
  }

  function LengthField(len: nat): (f: seq<Byte>)
    ensures |f| == 8
  {
    seq(8, i requires 0 <= i < 8 => LengthByte(len, i))
  }

  function Padding(len: nat): (p: seq<Byte>)
    ensures |p| == ZeroCount(len) + 9 && (len + |p|) % 64 == 0
  {
    WholeBlocks(len, ZeroCount(len));
    [0x80] + seq(ZeroCount(len), i => 0) + LengthField(len)
  }

  lemma WholeBlocks(len: nat, k: nat)
    requires (len + 1 + k) % 64 == 56
    ensures (len + (k + 9)) % 64 == 0
  {
    var q := (len + 1 + k) / 64;
    assert len + (k + 9) == 64 * (q + 1);
  }

  // ---------------- the digest ----------------

  function Bytes(w: Word): (b: seq<Byte>)
    ensures |b| == 4
  {
    [ByteOf(w, 3), ByteOf(w, 2), ByteOf(w, 1), ByteOf(w, 0)]
  }

  function OutputUpTo(s: State, n: nat): (d: seq<Byte>)
    requires n <= 8
    ensures |d| == 4 * n
  {
    if n == 0 then [] else OutputUpTo(s, n - 1) + Bytes(s[n - 1])
  }

  /** The digest of a message. */
  function Digest(message: seq<Byte>): (d: seq<Byte>)
    ensures |d| == 32
  {
    var text := message + Padding(|message|);
    OutputUpTo(Fold(text, |text| / 64), 8)
  }

  // ---------------- folding in pieces ----------------

  /** The state after n blocks depends on those blocks only. */
  lemma {:induction false} FoldPrefix(a: seq<Byte>, b: seq<Byte>, n: nat)
    requires 64 * n <= |a| && 64 * n <= |b| && a[..64 * n] == b[..64 * n]
    ensures Fold(a, n) == Fold(b, n)
  {
    hide Compress;
    if n > 0 {
      assert a[..64 * (n - 1)] == a[..64 * n][..64 * (n - 1)];
      assert b[..64 * (n - 1)] == b[..64 * n][..64 * (n - 1)];
      FoldPrefix(a, b, n - 1);
      assert a[64 * (n - 1)..64 * n] == a[..64 * n][64 * (n - 1)..];
      assert b[64 * (n - 1)..64 * n] == b[..64 * n][64 * (n - 1)..];
    }
  }
}

/** The two implementations: the streaming context and the one-shot function. */
module Sha256Code {
  import opened Words
  import opened Hexadecimal
  import opened Sha256

  // ---------------- one block ----------------

  /** The block function of both implementations: fills the schedule, runs the
      64 rounds on local variables, adds them to the state. */
  method Block(h: array<Word>, m: seq<Byte>)
    requires h.Length == 8 && |m| == 64
    modifies h
    ensures h[..] == Compress(old(h[..]), m)
  {
    hide Rounds, Sum, Schedule;
    var w := Expand(m);
    var a, b, c, d, e, f, g, hh := SixtyFour(w, m, h[0], h[1], h[2], h[3], h[4], h[5], h[6], h[7]);
    AddTo(h, a, b, c, d, e, f, g, hh);
  }

  method AddTo(h: array<Word>, a: Word, b: Word, c: Word, d: Word, e: Word, f: Word, g: Word, hh: Word)
    requires h.Length == 8
    modifies h
    ensures h[..] == Sum(old(h[..]), Regs(a, b, c, d, e, f, g, hh))
  {
    hide Plus, Sum;
    ghost var s: State := h[..];
    h[0], h[1], h[2], h[3] := Plus(h[0], a), Plus(h[1], b), Plus(h[2], c), Plus(h[3], d);
    h[4], h[5], h[6], h[7] := Plus(h[4], e), Plus(h[5], f), Plus(h[6], g), Plus(h[7], hh);
    SumIs(s, Regs(a, b, c, d, e, f, g, hh), h[..]);
  }

  lemma SumIs(s: State, r: Regs, t: seq<Word>)
    requires |t| == 8
    requires t[0] == Plus(s[0], r.a) && t[1] == Plus(s[1], r.b) && t[2] == Plus(s[2], r.c) && t[3] == Plus(s[3], r.d)
    requires t[4] == Plus(s[4], r.e) && t[5] == Plus(s[5], r.f) && t[6] == Plus(s[6], r.g) && t[7] == Plus(s[7], r.h)
    ensures t == Sum(s, r)
  {
    hide Plus;
  }

  // The 64 rounds on local variables.
  method SixtyFour(w: array<Word>, m: Text64, a0: Word, b0: Word, c0: Word, d0: Word,
                   e0: Word, f0: Word, g0: Word, h0: Word)
    returns (a: Word, b: Word, c: Word, d: Word, e: Word, f: Word, g: Word, hh: Word)
    requires w.Length == 64 && forall j: nat :: j < 64 ==> w[j] == Schedule(m, j)
    ensures Regs(a, b, c, d, e, f, g, hh) == Rounds(Regs(a0, b0, c0, d0, e0, f0, g0, h0), m, 64)
  {
    hide Schedule, Plus, Sum4, BigSigma0, BigSigma1, Ch, Maj, Rounds;
    a, b, c, d, e, f, g, hh := a0, b0, c0, d0, e0, f0, g0, h0;
    ghost var start := Regs(a0, b0, c0, d0, e0, f0, g0, h0);
    RoundMore(start, m, 0);
    for i := 0 to 64
      invariant Regs(a, b, c, d, e, f, g, hh) == Rounds(start, m, i)
    {
      RoundMore(start, m, i);
      var t1 := Plus(Sum4(hh, BigSigma1(e), Ch(e, f, g), K[i]), w[i]);
      var t2 := Plus(BigSigma0(a), Maj(a, b, c));
      hh, g, f, e, d, c, b, a := g, f, e, Plus(d, t1), c, b, a, Plus(t1, t2);
    }
  }

  lemma RoundMore(r: Regs, m: Text64, n: nat)
    requires n < 64
    ensures Rounds(r, m, 0) == r
    ensures Rounds(r, m, n + 1) == Round(Rounds(r, m, n), K[n], Schedule(m, n))
  {
    hide Round, Schedule;
  }

  // The message schedule, in place.
  method Expand(m: seq<Byte>) returns (w: array<Word>)
    requires |m| == 64
    ensures w.Length == 64 && fresh(w) && forall j: nat :: j < 64 ==> w[j] == Schedule(m, j)
  {
    hide Schedule, Plus, BigEndian, SmallSigma0, SmallSigma1;
    w := new Word[64];
    for i := 0 to 16
      invariant forall j: nat :: j < i ==> w[j] == Schedule(m, j)
    {
      ScheduleIs(m, i);
      w[i] := BigEndian(m[4 * i], m[4 * i + 1], m[4 * i + 2], m[4 * i + 3]);
    }
    for i := 16 to 64
      invariant forall j: nat :: j < i ==> w[j] == Schedule(m, j)
    {
      ScheduleIs(m, i);
      w[i] := Sum4(w[i - 16], SmallSigma0(w[i - 15]), w[i - 7], SmallSigma1(w[i - 2]));
    }
  }

  lemma ScheduleIs(m: Text64, t: nat)
    requires t < 64
    ensures t < 16 ==> Schedule(m, t) == BigEndian(m[4 * t], m[4 * t + 1], m[4 * t + 2], m[4 * t + 3])
    ensures t >= 16 ==>
      Schedule(m, t)
      == Sum4(Schedule(m, t - 16), SmallSigma0(Schedule(m, t - 15)), Schedule(m, t - 7), SmallSigma1(Schedule(m, t - 2)))
  {
    hide BigEndian, SmallSigma0, SmallSigma1, Plus, Sum4;
    if t >= 16 {
      SumReversed(SmallSigma1(Schedule(m, t - 2)), Schedule(m, t - 7), SmallSigma0(Schedule(m, t - 15)), Schedule(m, t - 16));
    }
  }

  // The code adds the four terms from the other end.
  lemma SumReversed(x: Word, y: Word, z: Word, u: Word)
    ensures Sum4(x, y, z, u) == Sum4(u, z, y, x)
  {
    hide Plus;
    PlusAssociates(Plus(x, y), z, u);
    PlusCommutes(Plus(x, y), Plus(z, u));
    PlusCommutes(z, u);
    PlusCommutes(x, y);
    PlusAssociates(Plus(u, z), y, x);
  }

  lemma PlusCommutes(x: Word, y: Word)
    ensures Plus(x, y) == Plus(y, x)
  {
  }

  lemma WordsAssociate(x: Word, y: Word, z: Word)
    ensures (x + y) + z == x + (y + z)
  {
  }

  lemma PlusAssociates(x: Word, y: Word, z: Word)
    ensures Plus(Plus(x, y), z) == Plus(x, Plus(y, z))
  {
    calc {
      Plus(Plus(x, y), z);
      Plus(x, y) + z;
      (x + y) + z;
      { WordsAssociate(x, y, z); }
      x + (y + z);
      x + Plus(y, z);
      Plus(x, Plus(y, z));
    }
  }

  // ---------------- the streaming context ----------------

  // A state and a buffer that account for the bytes fed.
  ghost predicate Holds(h: seq<Word>, rest: seq<Byte>, fed: seq<Byte>) {
    |rest| == |fed| % 64 && h == Fold(fed, |fed| / 64) && rest == fed[|fed| - |rest|..]
  }

  class Context {
    const h: array<Word>
    const buf: array<Byte>
    var buflen: nat
    var nbits: nat            // modulo 2^64
    ghost var fed: seq<Byte>  // every byte passed to Update since Init

    /** The state is the fold of the complete blocks fed so far; the buffer
        holds the rest. */
    ghost predicate Valid()
      reads this, h, buf
    {
      h.Length == 8 && buf.Length == 64 && buflen < 64 && Holds(h[..], buf[..buflen], fed)
    }

    constructor ()
      ensures Valid() && fresh(h) && fresh(buf) && fed == [] && nbits == 0
    {
      hide Fold, Compress;
      h := new Word[8];
      buf := new Byte[64](i => 0);
      buflen, nbits, fed := 0, 0, [];
      new;
      h[0], h[1], h[2], h[3] := 0x6a09e667, 0xbb67ae85, 0x3c6ef372, 0xa54ff53a;
      h[4], h[5], h[6], h[7] := 0x510e527f, 0x9b05688c, 0x1f83d9ab, 0x5be0cd19;
      FoldNone(fed);
      assert h[..] == INITIAL;
    }

    /** Feeds p, block by block; a chunk may fill, cross or miss any boundary. */
    method Update(p: seq<Byte>)
      requires Valid()
      modifies this, h, buf
      ensures Valid() && fed == old(fed) + p
      ensures nbits == (old(nbits) + 8 * |p|) % 0x1_0000_0000_0000_0000
    {
      hide Holds;
      nbits := (nbits + 8 * |p|) % 0x1_0000_0000_0000_0000;
      ghost var bits := nbits;
      var i := 0;
      while i < |p|
        invariant i <= |p| && Valid() && fed == old(fed) + p[..i] && nbits == bits
      {
        var take := if |p| - i < 64 - buflen then |p| - i else 64 - buflen;
        ghost var before := fed;
        Feed(p[i..i + take]);
        assert p[..i + take] == p[..i] + p[i..i + take];
        i := i + take;
      }
      assert p[..|p|] == p;
    }

    // One piece that fits the buffer; a full buffer is compressed and emptied.
    method Feed(piece: seq<Byte>)
      requires Valid() && buflen + |piece| <= 64
      modifies `buflen, `fed, h, buf
      ensures Valid() && fed == old(fed) + piece
    {
      hide Compress, Holds;
      HoldsGrows(h[..], buf[..buflen], fed, piece);
      var at := buflen;
      forall k | 0 <= k < |piece| {
        buf[at + k] := piece[k];
      }
      assert buf[..at + |piece|] == old(buf[..at]) + piece;
      fed := fed + piece;
      buflen := buflen + |piece|;
      if buflen == 64 {
        assert buf[..] == old(buf[..at]) + piece;
        assert h[..] == old(h[..]);
        Block(h, buf[..]);
        buflen := 0;
        assert buf[..0] == [];
        assert Holds(h[..], buf[..buflen], fed);
      } else {
        assert h[..] == old(h[..]);
        assert Holds(h[..], buf[..buflen], fed);
      }
    }

    /** Pads, and renders the digest. */
    method Finish() returns (text: string)
      requires Valid() && nbits == 8 * |fed| % 0x1_0000_0000_0000_0000
      modifies this, h, buf
      ensures text == HexOf(Digest(old(fed)))
    {
      hide Valid, Digest, HexOf;
      var out := Close();
      text := Hex(out);
    }

    // Pads, and reads the digest off the state.
    method Close() returns (digest: seq<Byte>)
      requires Valid() && nbits == 8 * |fed| % 0x1_0000_0000_0000_0000
      modifies this, h, buf
      ensures digest == Digest(old(fed))
    {
      hide Holds, Fold, LengthField, ByteIn, Bytes, OutputUpTo;
      ghost var message := fed;
      var bits := nbits;
      Update([0x80]);
      ghost var zeros := 0;
      while buflen != 56
        invariant Valid() && zeros <= ZeroCount(|message|)
        invariant fed == message + [0x80] + seq(zeros, i => 0)
        decreases ZeroCount(|message|) - zeros
      {
        HoldsMeans(h[..], buf[..buflen], fed);
        OnlyThere(|message|, zeros);
        Update([0]);
        zeros := zeros + 1;
      }
      HoldsMeans(h[..], buf[..buflen], fed);
      OnlyThere(|message|, zeros);
      var len := LengthOf(bits, |message|);
      nbits := (nbits - 64) % 0x1_0000_0000_0000_0000;
      Update(len);
      assert fed == message + Padding(|message|);
      HoldsMeans(h[..], buf[..buflen], fed);
      digest := OutputOf(h);
    }
  }

  // The fourth implementation step of both: the eight words, big endian.
  method OutputOf(h: array<Word>) returns (out: seq<Byte>)
    requires h.Length == 8
    ensures out == OutputUpTo(h[..], 8)
  {
    hide Bytes;
    out := [];
    for i := 0 to 8
      invariant out == OutputUpTo(h[..], i)
    {
      out := out + Bytes(h[i]);
    }
  }

  method LengthOf(bits: nat, ghost len: nat) returns (field: seq<Byte>)
    requires bits == 8 * len % 0x1_0000_0000_0000_0000
    ensures field == LengthField(len)
  {
    hide ByteIn;
    field := [];
    for i := 0 to 8
      invariant |field| == i && forall j: nat :: j < i ==> field[j] == LengthByte(len, j)
    {
      field := field + [ByteIn(bits, 56 - 8 * i)];
    }
  }

  // The padding stops at the first position that is 56 modulo 64.
  lemma OnlyThere(len: nat, zeros: nat)
    requires zeros <= ZeroCount(len)
    ensures (len + 1 + zeros) % 64 == 56 <==> zeros == ZeroCount(len)
  {
  }

  lemma HoldsMeans(h: seq<Word>, rest: seq<Byte>, fed: seq<Byte>)
    requires Holds(h, rest, fed)
    ensures |rest| == |fed| % 64 && h == Fold(fed, |fed| / 64)
  {
  }

  // Bytes that fit the buffer either leave the folded blocks alone or complete one more.
  lemma {:induction false} HoldsGrows(h: seq<Word>, rest: seq<Byte>, fed: seq<Byte>, piece: seq<Byte>)
    requires Holds(h, rest, fed) && |rest| + |piece| <= 64
    ensures |h| == 8
    ensures |rest + piece| < 64 ==> Holds(h, rest + piece, fed + piece)
    ensures |rest + piece| == 64 ==> Holds(Compress(h, rest + piece), [], fed + piece)
  {
    hide Compress;
    var now, n := fed + piece, |fed| / 64;
    assert now[..64 * n] == fed[..64 * n];
    FoldPrefix(now, fed, n);
    assert now[64 * n..] == rest + piece;
    if |rest + piece| == 64 {
      assert now[64 * n..64 * (n + 1)] == rest + piece;
      FoldMore(now, n);
    }
  }

  // ---------------- the one-shot function ----------------

  /** Blocks of the data first, then one or two blocks of tail. */
  method OneShot(data: seq<Byte>) returns (out: seq<Byte>)
    ensures out == Digest(data)
  {
    hide Fold, Compress, ByteIn, Bytes, OutputUpTo, Padding, INITIAL;
    var h := Initialised();
    var full := |data| / 64;
    var tail, t := Tail(data);
    ghost var text := data + Padding(|data|);
    FoldNone(text);
    ghost var last := tail[..t];
    var blocks := full + t / 64;
    for b := 0 to blocks
      invariant h[..] == Fold(text, b)
      invariant tail[..t] == last
    {
      SourceIs(data, last, text, b);
      var source: seq<Byte>;
      if b < full {
        source := data[64 * b..64 * b + 64];
      } else {
        source := tail[64 * (b - full)..64 * (b - full) + 64];
        assert source == last[64 * (b - full)..64 * (b - full) + 64];
      }
      FoldMore(text, b);
      Block(h, source);
    }
    out := OutputOf(h);
  }

  method Initialised() returns (h: array<Word>)
    ensures fresh(h) && h.Length == 8 && h[..] == INITIAL
  {
    h := new Word[8];
    h[0], h[1], h[2], h[3] := 0x6a09e667, 0xbb67ae85, 0x3c6ef372, 0xa54ff53a;
    h[4], h[5], h[6], h[7] := 0x510e527f, 0x9b05688c, 0x1f83d9ab, 0x5be0cd19;
  }

  // Block b of the padded text comes from the data or from the tail.
  lemma SourceIs(data: seq<Byte>, tail: seq<Byte>, text: seq<Byte>, b: nat)
    requires text == data[..64 * (|data| / 64)] + tail && 64 * (b + 1) <= |text|
    ensures b < |data| / 64 ==> text[64 * b..64 * (b + 1)] == data[64 * b..64 * b + 64]
    ensures b >= |data| / 64 ==>
      text[64 * b..64 * (b + 1)] == tail[64 * (b - |data| / 64)..64 * (b - |data| / 64) + 64]
  {
  }

  lemma FoldNone(text: seq<Byte>)
    ensures Fold(text, 0) == INITIAL
  {
  }

  lemma FoldMore(text: seq<Byte>, n: nat)
    requires 64 * (n + 1) <= |text|
    ensures Fold(text, n + 1) == Compress(Fold(text, n), text[64 * n..64 * (n + 1)])
  {
    hide Compress;
  }

  /** The remainder, the one bit, zeros and the bit count, in a buffer of 128. */
  method Tail(data: seq<Byte>) returns (tail: array<Byte>, t: nat)
    ensures tail.Length == 128 && t <= 128 && t % 64 == 0 && fresh(tail)
    ensures data[..64 * (|data| / 64)] + tail[..t] == data + Padding(|data|)
  {
    hide ByteIn, LengthField, Padding, ZeroCount;
    tail := new Byte[128](i => 0);
    t := PutRest(tail, data);
    tail[t] := 0x80;
    t := t + 1;
    assert tail[..t] == data[64 * (|data| / 64)..] + [0x80];
    t := PutZeros(tail, t, |data|);
    var bits := 8 * |data| % 0x1_0000_0000_0000_0000;
    t := PutLength(tail, t, bits, |data|);
    PaddedTail(data);
  }

  // The bytes after the last complete block.
  method PutRest(tail: array<Byte>, data: seq<Byte>) returns (t: nat)
    requires tail.Length == 128
    modifies tail
    ensures t == |data| % 64 && tail[..t] == data[64 * (|data| / 64)..]
  {
    var rem, full := |data| % 64, |data| / 64;
    t := 0;
    for i := 0 to rem
      invariant t == i && tail[..t] == data[64 * full..64 * full + i]
    {
      tail[t] := data[64 * full + i];
      t := t + 1;
    }
  }

  lemma PaddedTail(data: seq<Byte>)
    ensures var full := |data| / 64;
      data[..64 * full] + (data[64 * full..] + [0x80] + seq(ZeroCount(|data|), i => 0) + LengthField(|data|))
      == data + Padding(|data|)
  {
    hide LengthField;
    assert data == data[..64 * (|data| / 64)] + data[64 * (|data| / 64)..];
  }

  method PutZeros(tail: array<Byte>, start: nat, ghost len: nat) returns (t: nat)
    requires tail.Length == 128 && start == len % 64 + 1
    modifies tail
    ensures t == start + ZeroCount(len) && t % 64 == 56 && t <= 120
    ensures tail[..t] == old(tail[..start]) + seq(ZeroCount(len), i => 0)
  {
    t := start;
    while t % 64 != 56
      invariant start <= t <= start + ZeroCount(len) && start + ZeroCount(len) <= 120
      invariant tail[..t] == old(tail[..start]) + seq(t - start, i => 0)
      decreases start + ZeroCount(len) - t
    {
      OnlyThere(len, t - start);
      tail[t] := 0;
      t := t + 1;
    }
    OnlyThere(len, t - start);
  }

  method PutLength(tail: array<Byte>, start: nat, bits: nat, ghost len: nat) returns (t: nat)
    requires tail.Length == 128 && start <= 120 && bits == 8 * len % 0x1_0000_0000_0000_0000
    modifies tail
    ensures t == start + 8 && tail[..t] == old(tail[..start]) + LengthField(len)
  {
    hide ByteIn;
    t := start;
    for i := 0 to 8
      invariant t == start + i && tail[..t] == old(tail[..start]) + LengthField(len)[..i]
    {
      tail[t] := ByteIn(bits, 56 - 8 * i);
      t := t + 1;
    }
  }

  // ---------------- chunking ----------------

  function Concat(chunks: seq<seq<Byte>>): seq<Byte> {
    if chunks == [] then [] else Concat(chunks[..|chunks| - 1]) + chunks[|chunks| - 1]
  }

  lemma ConcatNext(chunks: seq<seq<Byte>>, i: nat)
    requires i <= |chunks|
    ensures Concat(chunks[..0]) == []
    ensures i < |chunks| ==> Concat(chunks[..i + 1]) == Concat(chunks[..i]) + chunks[i]
  {
    if i < |chunks| {
      assert chunks[..i + 1][..i] == chunks[..i];
    }
  }

  /** Any split of a message into updates gives the digest of the message. */
  method HashChunks(chunks: seq<seq<Byte>>) returns (text: string)
    ensures text == HexOf(Digest(Concat(chunks)))
  {
    hide HexOf, Context.Valid, Digest, Holds, Concat;
    ConcatNext(chunks, 0);
    var c := new Context();
    for i := 0 to |chunks|
      invariant c.Valid() && fresh(c) && fresh(c.h) && fresh(c.buf)
      invariant c.fed == Concat(chunks[..i]) && c.nbits == 8 * |c.fed| % 0x1_0000_0000_0000_0000
    {
      c.Update(chunks[i]);
      ConcatNext(chunks, i);
    }
    assert chunks[..|chunks|] == chunks;
    text := c.Finish();
  }
}
