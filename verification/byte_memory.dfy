/** Global memory keyed by bytes and by dwords at once, with synthesised bytes
    behind the real entries, seen as a flat array of bytes. */
module ByteMemory {
  import opened Words
  import opened Isa
  import C = CoreSpec
  import Simt
  import LdsModel

  // ---------------- synthesised bytes ----------------

  // A declared region whose unwritten bytes are synthesised.
  datatype Region = Region(lo: nat, hi: nat)

  function NotZero(b: Byte): (r: Byte)
    ensures r != 0
  {
    if b == 0 then 1 else b
  }

  // Multiplication and addition modulo 2^32, twice, with a shift between.
  function PatternA(i: Word): Byte {
    var x := i * 1664525 + 1013904223;
    var y := (x ^ (x >> 13)) * 1664525 + 1013904223;
    NotZero(ByteOf(y, 2))
  }

  function PatternB(i: Word): Byte {
    var x := i * 2654435761 + 0x9E3779B9;
    var y := (x ^ (x >> 15)) * 2246822519;
    NotZero(ByteOf((y ^ (y >> 13)) >> 3, 1))
  }

  datatype Generator = GenA | GenB

  function Generate(g: Generator, i: nat): Byte {
    var w := Trunc(i);
    match g case GenA => PatternA(w) case GenB => PatternB(w)
  }

  // The first region that contains the address.
  function BaseOf(regions: seq<Region>, a: nat): Option<nat> {
    if regions == [] then None
    else if regions[0].lo <= a < regions[0].hi then Some(regions[0].lo)
    else BaseOf(regions[1..], a)
  }

  datatype Backed = Backed(keys: C.Memory, regions: seq<Region>, gen: Generator)

  predicate Synthesised(m: Backed, a: nat) {
    BaseOf(m.regions, a).Some?
  }

  // The base of the dword an address lies in.
  function Aligned(a: nat): (base: nat)
    ensures base <= a
  {
    a - a % 4
  }

  // ---------------- the flat view ----------------

  /** One byte: a byte key wins, then the aligned dword key, then the pattern. */
  function FlatByte(m: Backed, a: nat): Byte {
    if a in m.keys then ByteOf(m.keys[a], 0)
    else if a - a % 4 in m.keys then ByteOf(m.keys[a - a % 4], a % 4)
    else match BaseOf(m.regions, a)
      case Some(lo) => if a >= lo then Generate(m.gen, a - lo) else 0
      case None => 0
  }

  /** Without regions this is the memory of the interpreter core. */
  lemma {:induction false} PlainMemory(keys: C.Memory, g: Generator, a: nat)
    ensures FlatByte(Backed(keys, [], g), a) == C.MemByte(keys, a)
  {
    hide ByteOf, Generate;
  }

  function Store(m: Backed, a: nat, bytes: seq<Byte>): Backed {
    m.(keys := C.WriteBytes(m.keys, a, bytes))
  }

  // ---------------- what a store does to the keys ----------------

  lemma {:induction false} WrittenKeys(mem: C.Memory, a: nat, bytes: seq<Byte>, y: nat)
    ensures y in C.WriteBytes(mem, a, bytes) <==> y in mem || a <= y < a + |bytes|
    ensures a <= y < a + |bytes| ==> C.WriteBytes(mem, a, bytes)[y] == Wide(bytes[y - a])
    ensures !(a <= y < a + |bytes|) && y in mem ==> C.WriteBytes(mem, a, bytes)[y] == mem[y]
  {
    hide Wide;
    if bytes != [] {
      WrittenKeys(mem, a, bytes[..|bytes| - 1], y);
    }
  }

  lemma ByteOfWide(b: Byte)
    ensures ByteOf(Wide(b), 0) == b
    ensures ByteOf(Wide(b), 1) == 0 && ByteOf(Wide(b), 2) == 0 && ByteOf(Wide(b), 3) == 0
  {
  }

  lemma ByteOfWideAt(b: Byte, k: nat)
    requires 0 < k < 4
    ensures ByteOf(Wide(b), k) == 0
  {
    hide ByteOf, Wide;
    ByteOfWide(b);
    assert k == 1 || k == 2 || k == 3;
  }

  // ---------------- one store ----------------

  // The flat array with n bytes replaced.
  function Expected(m: Backed, a: nat, bytes: seq<Byte>, y: nat): Byte {
    if a <= y < a + |bytes| then bytes[y - a] else FlatByte(m, y)
  }

  // The byte shares its dword with a stored base, but has no key of its own.
  predicate Shadowed(m: Backed, a: nat, n: nat, y: nat) {
    !(a <= y < a + n) && a <= y - y % 4 < a + n && y !in m.keys
  }

  /** Every byte after a store: as stored, as before, or zero where the new
      byte key at the dword's base now shadows what was there. */
  lemma {:induction false} StoredByte(m: Backed, a: nat, bytes: seq<Byte>, y: nat)
    ensures FlatByte(Store(m, a, bytes), y)
      == if Shadowed(m, a, |bytes|, y) then 0 else Expected(m, a, bytes, y)
  {
    hide ByteOf, Wide, Generate, C.WriteBytes;
    var base := y - y % 4;
    WrittenKeys(m.keys, a, bytes, y);
    WrittenKeys(m.keys, a, bytes, base);
    if a <= y < a + |bytes| {
      ByteOfWide(bytes[y - a]);
    } else if y !in m.keys && a <= base < a + |bytes| {
      ByteOfWideAt(bytes[base - a], y % 4);
    }
  }

  ghost predicate Refines(m: Backed, a: nat, bytes: seq<Byte>) {
    forall y: nat :: FlatByte(Store(m, a, bytes), y) == Expected(m, a, bytes, y)
  }

  // Only the dword of the last byte can be cut off, and only above the store.
  predicate Clean(m: Backed, a: nat, n: nat) {
    n == 0 || Whole(m, a, n, (a + n - 1) - (a + n - 1) % 4)
  }

  predicate Whole(m: Backed, a: nat, n: nat, base: nat) {
    base >= a ==> forall y: nat :: a + n <= y < base + 4 ==> y in m.keys || FlatByte(m, y) == 0
  }

  /** A store refines an update of the flat array if and only if no nonzero
      byte without a key of its own sits above the store in a dword whose base
      the store covers. */
  lemma {:induction false} RefinesExactlyWhen(m: Backed, a: nat, bytes: seq<Byte>)
    ensures Refines(m, a, bytes) <==> Clean(m, a, |bytes|)
  {
    hide FlatByte, Store;
    var n := |bytes|;
    if n > 0 {
      var base := (a + n - 1) - (a + n - 1) % 4;
      if Clean(m, a, n) {
        forall y: nat ensures FlatByte(Store(m, a, bytes), y) == Expected(m, a, bytes, y) {
          StoredByte(m, a, bytes, y);
        }
      } else {
        var y: nat :| a + n <= y < base + 4 && y !in m.keys && FlatByte(m, y) != 0;
        StoredByte(m, a, bytes, y);
        assert y - y % 4 == base;
      }
    } else {
      forall y: nat ensures FlatByte(Store(m, a, bytes), y) == Expected(m, a, bytes, y) {
        StoredByte(m, a, bytes, y);
      }
    }
  }

  /** One byte stored over a dword entry: the byte above it reads as zero. */
  lemma {:induction false} UpperByteIsLost(g: Generator)
    ensures var m := Backed(map[0 := 0xAABB_CCDD], [], g);
      FlatByte(m, 1) == 0xCC && FlatByte(Store(m, 0, [0x11]), 1) == 0 && !Refines(m, 0, [0x11])
  {
    hide Generate;
    var m := Backed(map[0 := 0xAABB_CCDD], [], g);
    assert FlatByte(m, 1) == 0xCC;
    StoredByte(m, 0, [0x11], 1);
    assert Expected(m, 0, [0x11], 1) == 0xCC;
  }

  lemma {:induction false} GeneratedNonzero(g: Generator, i: nat)
    ensures Generate(g, i) != 0
  {
    hide ByteOf;
  }

  /** Above a synthesised byte that has no key, a store that covers only part of
      the dword from its base on always destroys that byte. */
  lemma {:induction false} PatternIsLost(m: Backed, a: nat, n: nat, y: nat)
    requires n > 0 && a <= y - y % 4 < a + n <= y
    requires y !in m.keys && y - y % 4 !in m.keys && Synthesised(m, y)
    ensures !Clean(m, a, n)
  {
    hide Generate, ByteOf;
    BaseContains(m.regions, y);
    GeneratedNonzero(m.gen, y - BaseOf(m.regions, y).value);
    assert (a + n - 1) - (a + n - 1) % 4 == y - y % 4;
  }

  lemma {:induction false} BaseContains(regions: seq<Region>, a: nat)
    ensures BaseOf(regions, a).Some? ==> BaseOf(regions, a).value <= a
  {
    if regions != [] {
      BaseContains(regions[1..], a);
    }
  }

  // ---------------- reading back ----------------

  // n bytes as the load handlers read them: each address wraps at 2^64.
  function Load(m: Backed, a: nat, n: nat): seq<Byte> {
    seq(n, j requires 0 <= j < n => FlatByte(m, (a + j) % C.ADDRESS_SPACE))
  }

  /** What was stored is read back, whatever keys were there before. */
  lemma {:induction false} ReadBack(m: Backed, a: nat, bytes: seq<Byte>)
    requires a + |bytes| <= C.ADDRESS_SPACE
    ensures Load(Store(m, a, bytes), a, |bytes|) == bytes
  {
    hide FlatByte, Store;
    forall j: nat | j < |bytes| ensures FlatByte(Store(m, a, bytes), (a + j) % C.ADDRESS_SPACE) == bytes[j] {
      StoredByte(m, a, bytes, a + j);
    }
  }

  /** A store that runs past 2^64 loses the bytes beyond: no load can tell it
      from the store of the bytes before. */
  lemma {:induction false} WrappedBytesAreLost(m: Backed, a: nat, bytes: seq<Byte>, b: nat, n: nat)
    requires a < C.ADDRESS_SPACE < a + |bytes|
    ensures Load(Store(m, a, bytes), b, n) == Load(Store(m, a, bytes[..C.ADDRESS_SPACE - a]), b, n)
  {
    hide FlatByte, Store;
    var kept := bytes[..C.ADDRESS_SPACE - a];
    forall y: nat | y < C.ADDRESS_SPACE ensures FlatByte(Store(m, a, bytes), y) == FlatByte(Store(m, a, kept), y) {
      StoredByte(m, a, bytes, y);
      StoredByte(m, a, kept, y);
    }
    LoadsAlike(Store(m, a, bytes), Store(m, a, kept), b, n);
  }

  lemma LoadsAlike(m: Backed, m': Backed, b: nat, n: nat)
    requires forall y: nat :: y < C.ADDRESS_SPACE ==> FlatByte(m, y) == FlatByte(m', y)
    ensures Load(m, b, n) == Load(m', b, n)
  {
    hide FlatByte;
  }

  // Byte j lies past 2^64; this is the address a load reads it from.
  predicate Wraps(a: nat, j: nat) {
    a + j >= C.ADDRESS_SPACE
  }

  /** A lane's store is read back at its address if and only if every byte past
      2^64 happens to be what is already at the wrapped address. */
  lemma {:induction false} ReadBackExactlyWhen(m: Backed, a: nat, bytes: seq<Byte>)
    requires a < C.ADDRESS_SPACE && |bytes| <= 16
    ensures Load(Store(m, a, bytes), a, |bytes|) == bytes
      <==> forall j: nat :: j < |bytes| && Wraps(a, j) ==> FlatByte(m, a + j - C.ADDRESS_SPACE) == bytes[j]
  {
    hide FlatByte, Store;
    forall j: nat | j < |bytes|
      ensures Load(Store(m, a, bytes), a, |bytes|)[j]
        == if Wraps(a, j) then FlatByte(m, a + j - C.ADDRESS_SPACE) else bytes[j]
    {
      StoredByte(m, a, bytes, (a + j) % C.ADDRESS_SPACE);
    }
  }

  /** Two bytes at the last address of an empty memory: the second is gone. */
  lemma {:induction false} WrapLosesBytes(g: Generator)
    ensures var m := Backed(map[], [], g);
      Load(Store(m, C.ADDRESS_SPACE - 1, [0x11, 0x22]), C.ADDRESS_SPACE - 1, 2) == [0x11, 0]
  {
    hide Generate, Store;
    var m, a, bytes := Backed(map[], [], g), C.ADDRESS_SPACE - 1, [0x11, 0x22];
    StoredByte(m, a, bytes, a);
    StoredByte(m, a, bytes, 0);
  }

  // ---------------- a whole wave ----------------

  // What each lane stores, in lane order.
  datatype LaneStore = LaneStore(active: bool, addr: nat, bytes: seq<Byte>)

  function StoreAll(m: Backed, ls: seq<LaneStore>): Backed {
    if ls == [] then m
    else
      var last := ls[|ls| - 1];
      var before := StoreAll(m, ls[..|ls| - 1]);
      if last.active then Store(before, last.addr, last.bytes) else before
  }

  predicate Touches(l: LaneStore, y: nat) {
    l.active && l.addr <= y < l.addr + |l.bytes|
  }

  predicate Touched(ls: seq<LaneStore>, y: nat) {
    exists k: nat :: k < |ls| && Touches(ls[k], y)
  }

  // k is the highest lane that stores to y.
  predicate Highest(ls: seq<LaneStore>, k: nat, y: nat) {
    k < |ls| && Touches(ls[k], y) && forall j: nat :: k < j < |ls| ==> !Touches(ls[j], y)
  }

  lemma {:induction false} KeysAfter(m: Backed, ls: seq<LaneStore>, y: nat)
    ensures y in StoreAll(m, ls).keys <==> y in m.keys || Touched(ls, y)
    ensures StoreAll(m, ls).regions == m.regions && StoreAll(m, ls).gen == m.gen
  {
    hide C.WriteBytes;
    if ls != [] {
      var before := ls[..|ls| - 1];
      KeysAfter(m, before, y);
      var last := ls[|ls| - 1];
      assert forall k: nat :: k < |before| ==> ls[k] == before[k];
      WrittenKeys(StoreAll(m, before).keys, last.addr, last.bytes, y);
    }
  }

  /** Where lanes overlap, the highest active lane's byte is what remains. */
  lemma {:induction false} HighestLaneWins(m: Backed, ls: seq<LaneStore>, k: nat, y: nat)
    requires Highest(ls, k, y)
    ensures FlatByte(StoreAll(m, ls), y) == ls[k].bytes[y - ls[k].addr]
  {
    hide FlatByte, Store;
    var last, before := ls[|ls| - 1], ls[..|ls| - 1];
    if k == |ls| - 1 {
      StoredByte(StoreAll(m, before), last.addr, last.bytes, y);
    } else {
      assert forall j: nat :: j < |before| ==> ls[j] == before[j];
      HighestLaneWins(m, before, k, y);
      assert !Touches(last, y);
      if last.active {
        KeysAfter(m, before, y);
        assert Touches(before[k], y);
        StoredByte(StoreAll(m, before), last.addr, last.bytes, y);
      }
    }
  }

  /** A byte that no lane stores keeps its value if and only if it has a key of
      its own, or is zero, or no lane stores to the base of its dword. */
  lemma {:induction false} UntouchedExactlyWhen(m: Backed, ls: seq<LaneStore>, y: nat)
    requires !Touched(ls, y)
    ensures FlatByte(StoreAll(m, ls), y) == FlatByte(m, y)
      <==> y in m.keys || FlatByte(m, y) == 0 || !Touched(ls, Aligned(y))
  {
    hide FlatByte, Store;
    UntouchedValue(m, ls, y);
  }

  lemma {:induction false} UntouchedValue(m: Backed, ls: seq<LaneStore>, y: nat)
    requires !Touched(ls, y)
    ensures FlatByte(StoreAll(m, ls), y) == if y !in m.keys && Touched(ls, Aligned(y)) then 0 else FlatByte(m, y)
  {
    hide FlatByte, Store;
    if ls != [] {
      var last, before := ls[|ls| - 1], ls[..|ls| - 1];
      assert forall j: nat :: j < |before| ==> ls[j] == before[j];
      assert !Touches(ls[|ls| - 1], y);
      UntouchedValue(m, before, y);
      KeysAfter(m, before, y);
      if last.active {
        StoredByte(StoreAll(m, before), last.addr, last.bytes, y);
      }
    }
  }

  // The lanes of a store instruction as the interpreter runs them.
  function LanesOf(at: C.GlobalBase, data: VData, off: int, width: Width, exec: Word, v: C.VFile, n: nat): seq<LaneStore>
    requires n <= LANES
  {
    seq(n, l requires 0 <= l < n =>
      LaneStore(Bit(exec, l), C.GlobalAddress(v[l], at, off), C.DataBytes(C.Data(v[l], data), width)))
  }

  /** The interpreter's store instruction is such a wave store. */
  lemma {:induction false} InstructionStores(m: Backed, at: C.GlobalBase, data: VData, off: int, width: Width,
                                             exec: Word, v: C.VFile, n: nat)
    requires n <= LANES
    ensures StoreAll(m, LanesOf(at, data, off, width, exec, v, n))
      == m.(keys := C.StoreUpTo(m.keys, at, data, off, width, exec, v, n))
  {
    hide Bit, C.GlobalAddress, C.DataBytes, C.Data, C.WriteBytes;
    if n > 0 {
      InstructionStores(m, at, data, off, width, exec, v, n - 1);
      var ls := LanesOf(at, data, off, width, exec, v, n);
      assert ls[..n - 1] == LanesOf(at, data, off, width, exec, v, n - 1);
    }
  }

  // ---------------- through the interpreter ----------------

  // A store and a load of the same bytes, one after the other.
  predicate StoreAndLoad(prog: Program, pc: nat, at: GlobalAt, off: int, data: VData, dst: VData) {
    && LdsModel.Dwords(data) == LdsModel.Dwords(dst) <= 4
    && Simt.Holds(prog, pc, Global(GlobalStore(at, data, off, 4 * LdsModel.Dwords(data))))
    && Simt.Holds(prog, pc + 1, Global(GlobalLoad(dst, at, off, 4 * LdsModel.Dwords(data), false)))
  }

  // Lane l is active, its bytes end below 2^64, and no later active lane stores over them.
  predicate LastToStore(exec: Word, v: C.VFile, l: nat, at: C.GlobalBase, off: int, n: nat) {
    && l < LANES && Bit(exec, l) && C.GlobalAddress(v[l], at, off) + n <= C.ADDRESS_SPACE
    && forall k: nat :: l < k < LANES && Bit(exec, k) ==>
         Apart(C.GlobalAddress(v[k], at, off), C.GlobalAddress(v[l], at, off), n)
  }

  predicate Apart(a: nat, b: nat, n: nat) {
    a + n <= b || b + n <= a
  }

  lemma {:induction false} StoredBytes(mem: C.Memory, at: C.GlobalBase, data: VData, off: int, width: Width,
                                       exec: Word, v: C.VFile, l: nat)
    requires LastToStore(exec, v, l, at, off, width)
    requires forall k: nat :: k < LANES ==> |C.DataBytes(C.Data(v[k], data), width)| == width
    ensures C.ReadBytes(C.StoreUpTo(mem, at, data, off, width, exec, v, LANES), C.GlobalAddress(v[l], at, off), width)
      == C.DataBytes(C.Data(v[l], data), width)
  {
    hide Bit, C.GlobalAddress, C.DataBytes, C.Data, C.StoreUpTo, FlatByte, C.MemByte, StoreAll;
    var ls := LanesOf(at, data, off, width, exec, v, LANES);
    var mem' := C.StoreUpTo(mem, at, data, off, width, exec, v, LANES);
    var a := C.GlobalAddress(v[l], at, off);
    InstructionStores(Backed(mem, [], GenA), at, data, off, width, exec, v, LANES);
    forall j: nat | j < width ensures C.MemByte(mem', (a + j) % C.ADDRESS_SPACE) == ls[l].bytes[j] {
      assert Highest(ls, l, a + j);
      HighestLaneWins(Backed(mem, [], GenA), ls, l, a + j);
      PlainMemory(mem', GenA, a + j);
    }
  }

  /** Two steps of the interpreter: registers stored to global memory and loaded
      from the same address come back, in every active lane whose bytes no later
      lane overwrites. */
  lemma {:induction false} StoreThenLoad(prog: Program, cfg: C.Config, c: C.Core, sh: C.Shared, l: nat,
                                         operand: GlobalAt, at: C.GlobalBase, off: int, data: VData, dst: VData)
    requires c.cycles.NoKeys? && StoreAndLoad(prog, c.pc, operand, off, data, dst)
    requires C.ResolveBase(c, operand) == C.Got(at) && LastToStore(c.exec, c.v, l, at, off, 4 * LdsModel.Dwords(data))
    ensures var r := C.Step(prog, cfg, c, sh);
      var q := C.Step(prog, cfg, r.core, r.shared);
      r.signal.Fine? && q.signal.Fine? && C.Data(q.core.v[l], dst) == C.Data(c.v[l], data)
  {
    hide Bit, C.GlobalAddress, C.DataBytes, C.Data, C.StoreUpTo, C.ReadBytes, C.PutBytes, Dword, C.Step, LastToStore,
         C.StepMov, C.StepAdd, C.StepSBin, C.StepCmp, C.StepSaveExec, C.StepSLoad, C.StepVBin, C.StepVCmp,
         C.StepVCmpx, C.StepDs, C.StepBpermute, C.ResolveBase;
    var width: Width := 4 * LdsModel.Dwords(data);
    LastIsActive(c.exec, c.v, l, at, off, width);
    assert c.exec != 0 by { NoBits(l); }
    Simt.StepIs(prog, cfg, c, sh, prog[c.pc].op);
    SameBase(c, Simt.Fetched(c), operand);
    var r := C.Step(prog, cfg, c, sh);
    SameBase(c, Simt.Fetched(r.core), operand);
    Simt.StepIs(prog, cfg, r.core, r.shared, prog[c.pc + 1].op);
    forall k: nat | k < LANES
      ensures |C.Data(c.v[k], data)| == LdsModel.Dwords(data) && |C.DataBytes(C.Data(c.v[k], data), width)| == width
    {
      LdsModel.DataPut(c.v[k], data, []);
      LdsModel.DataLength(C.Data(c.v[k], data));
    }
    StoredBytes(sh.mem, at, data, off, width, c.exec, c.v, l);
    var words := C.Data(c.v[l], data);
    var bytes := C.DataBytes(words, width);
    forall j: nat | j < |words| ensures Dword(bytes, j) == words[j] { LdsModel.WordsBack(words, j); }
    LdsModel.DataPut(c.v[l], dst, bytes);
    assert C.Data(C.PutBytes(c.v[l], dst, bytes), dst) == words;
  }

  lemma SameBase(c: C.Core, c': C.Core, at: GlobalAt)
    requires c.s == c'.s && c.undef == c'.undef
    ensures C.ResolveBase(c, at) == C.ResolveBase(c', at)
  {
    hide C.PairGet;
    if at.AtBase? {
      SamePair(c, c', at.base, at.base.count);
    }
  }

  lemma {:induction false} SamePair(c: C.Core, c': C.Core, p: SSpan, n: nat)
    requires c.s == c'.s && c.undef == c'.undef && n <= p.count
    ensures C.PairGet(c, p, n) == C.PairGet(c', p, n)
  {
    if n > 0 {
      SamePair(c, c', p, n - 1);
    }
  }

  lemma LastIsActive(exec: Word, v: C.VFile, l: nat, at: C.GlobalBase, off: int, n: nat)
    requires LastToStore(exec, v, l, at, off, n)
    ensures l < LANES && Bit(exec, l)
  {
  }

  // ---------------- the lazily backed dictionary ----------------

  class PatternMem {
    var keys: C.Memory
    const regions: seq<Region>
    const gen: Generator
    var nSynth: nat

    ghost function Value(): Backed
      reads this
    {
      Backed(keys, regions, gen)
    }

    constructor (base: C.Memory, regions: seq<Region>, gen: Generator)
      ensures Value() == Backed(base, regions, gen) && nSynth == 0
    {
      keys, this.regions, this.gen, nSynth := base, regions, gen, 0;
    }

    /** Reads a byte; the counter grows only when it had to be synthesised. */
    method Read(a: nat) returns (b: Byte)
      modifies `nSynth
      ensures b == FlatByte(Value(), a)
      ensures nSynth == old(nSynth)
        + if a !in keys && a - a % 4 !in keys && Synthesised(Value(), a) then 1 else 0
    {
      hide ByteOf, Generate;
      if a in keys {
        return ByteOf(keys[a], 0);
      }
      var base := a - a % 4;
      if base in keys {
        return ByteOf(keys[base], a - base);
      }
      for i := 0 to |regions|
        invariant BaseOf(regions, a) == BaseOf(regions[i..], a)
      {
        if regions[i].lo <= a < regions[i].hi {
          nSynth := nSynth + 1;
          return Generate(gen, a - regions[i].lo);
        }
      }
      b := 0;
    }

    method Write(a: nat, bytes: seq<Byte>)
      modifies `keys
      ensures Value() == Store(old(Value()), a, bytes)
    {
      hide Wide, C.WriteBytes;
      WriteNext(keys, a, bytes, 0);
      for k := 0 to |bytes|
        invariant keys == C.WriteBytes(old(keys), a, bytes[..k])
      {
        WriteNext(old(keys), a, bytes, k);
        keys := keys[a + k := Wide(bytes[k])];
      }
      assert bytes[..|bytes|] == bytes;
    }
  }

  lemma WriteNext(mem: C.Memory, a: nat, bytes: seq<Byte>, k: nat)
    requires k <= |bytes|
    ensures C.WriteBytes(mem, a, bytes[..0]) == mem
    ensures k < |bytes| ==>
      C.WriteBytes(mem, a, bytes[..k + 1]) == C.WriteBytes(mem, a, bytes[..k])[a + k := Wide(bytes[k])]
  {
    if k < |bytes| {
      assert bytes[..k + 1][..k] == bytes[..k];
    }
  }
}
