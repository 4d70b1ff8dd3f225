/** Entry registers: which SGPRs a kernel descriptor preloads, which it leaves
    undefined, and what a core holds after they have been filled. */
module EntryRegisters {
  import opened Words
  import opened Isa
  import C = CoreSpec
  import opened EmulatorCore
  import FailClosed

  datatype Semantic =
    | PrivateSegmentBuffer
    | DispatchPtr
    | QueuePtr
    | KernargSegmentPtr
    | DispatchId
    | FlatScratchInit
    | PrivateSegmentSize
    | WorkgroupIdX
    | WorkgroupIdY
    | WorkgroupIdZ
    | WorkgroupInfo
    | WavefrontOffset

  // One row of an order table: enable bit, dwords, meaning.
  datatype Row = Row(bit: nat, span: nat, what: Semantic)

  const USER_ORDER: seq<Row> := [
    Row(0, 4, PrivateSegmentBuffer), Row(1, 2, DispatchPtr), Row(2, 2, QueuePtr), Row(3, 2, KernargSegmentPtr),
    Row(4, 2, DispatchId), Row(5, 2, FlatScratchInit), Row(6, 1, PrivateSegmentSize)]

  const SYSTEM_ORDER: seq<Row> := [
    Row(7, 1, WorkgroupIdX), Row(8, 1, WorkgroupIdY), Row(9, 1, WorkgroupIdZ), Row(10, 1, WorkgroupInfo),
    Row(0, 1, WavefrontOffset)]

  // A meaning placed at consecutive registers.
  datatype Range = Range(start: nat, span: nat, what: Semantic)

  predicate Covers(r: Range, i: int) {
    r.start <= i < r.start + r.span
  }

  predicate Inside(rs: seq<Range>, i: int) {
    exists k: nat :: k < |rs| && Covers(rs[k], i)
  }

  datatype Plan = Plan(user: seq<Range>, system: seq<Range>, next: nat, declared: nat)

  // ---------------- the descriptor, bit by bit ----------------

  predicate Table(rows: seq<Row>) {
    forall k: nat :: k < |rows| ==> rows[k].bit < LANES && rows[k].span > 0
  }

  function Enabled(rows: seq<Row>, word: Word, n: nat): seq<Row>
    requires Table(rows) && n <= |rows|
  {
    if n == 0 then []
    else Enabled(rows, word, n - 1) + if Bit(word, rows[n - 1].bit) then [rows[n - 1]] else []
  }

  function Spans(rows: seq<Row>, n: nat): nat
    requires n <= |rows|
  {
    if n == 0 then 0 else Spans(rows, n - 1) + rows[n - 1].span
  }

  // Bits 1 to 4 of the system word.
  function DeclaredCount(d13: Word): (n: nat)
    ensures n < 16
  {
    (if Bit(d13, 1) then 1 else 0) + (if Bit(d13, 2) then 2 else 0) + (if Bit(d13, 3) then 4 else 0)
    + (if Bit(d13, 4) then 8 else 0)
  }

  /** The rows are placed one after another from `base`. */
  predicate PlacedFrom(rs: seq<Range>, rows: seq<Row>, base: nat) {
    |rs| == |rows|
    && forall k: nat :: k < |rs| ==> rs[k] == Range(base + Spans(rows, k), rows[k].span, rows[k].what)
  }

  predicate Describes(p: Plan, d13: Word, d14: Word) {
    var user, system := Enabled(USER_ORDER, d14, 7), Enabled(SYSTEM_ORDER, d13, 5);
    && p.declared == DeclaredCount(d13)
    && p.next == Spans(user, |user|)
    && PlacedFrom(p.user, user, 0)
    && PlacedFrom(p.system, system, p.declared)
  }

  method Decode(rows: seq<Row>, word: Word) returns (enabled: seq<Row>)
    requires Table(rows)
    ensures enabled == Enabled(rows, word, |rows|)
  {
    hide Bit;
    enabled := [];
    for n := 0 to |rows|
      invariant enabled == Enabled(rows, word, n)
    {
      if Bit(word, rows[n].bit) {
        enabled := enabled + [rows[n]];
      }
    }
  }

  method Place(rows: seq<Row>, base: nat) returns (rs: seq<Range>, next: nat)
    ensures PlacedFrom(rs, rows, base) && next == base + Spans(rows, |rows|)
  {
    hide Spans;
    rs, next := [], base;
    SpansNext(rows, 0);
    for n := 0 to |rows|
      invariant next == base + Spans(rows, n) && |rs| == n
      invariant forall k: nat :: k < n ==> rs[k] == Range(base + Spans(rows, k), rows[k].span, rows[k].what)
    {
      SpansNext(rows, n);
      rs := rs + [Range(next, rows[n].span, rows[n].what)];
      next := next + rows[n].span;
    }
  }

  method EntryPlan(d13: Word, d14: Word) returns (p: Plan)
    ensures Describes(p, d13, d14)
  {
    hide Bit;
    var enabled := Decode(USER_ORDER, d14);
    var user, next := Place(enabled, 0);
    var declared := DeclaredCount(d13);
    enabled := Decode(SYSTEM_ORDER, d13);
    var system, _ := Place(enabled, declared);
    p := Plan(user, system, next, declared);
  }

  lemma SpansNext(rows: seq<Row>, n: nat)
    requires n <= |rows|
    ensures Spans(rows, 0) == 0
    ensures n < |rows| ==> Spans(rows, n + 1) == Spans(rows, n) + rows[n].span
  {
  }

  // ---------------- the layout ----------------

  lemma {:induction false} SpansOrdered(rows: seq<Row>, m: nat, n: nat)
    requires m <= n <= |rows|
    ensures Spans(rows, m) <= Spans(rows, n)
    ensures m < n ==> Spans(rows, m) + rows[m].span <= Spans(rows, n)
  {
    if m + 1 < n {
      SpansOrdered(rows, m, n - 1);
    }
  }

  // The range that covers a register, found from the end.
  lemma {:induction false} Covering(rows: seq<Row>, n: nat, i: nat) returns (k: nat)
    requires n <= |rows| && i < Spans(rows, n)
    ensures k < n && Spans(rows, k) <= i < Spans(rows, k) + rows[k].span
  {
    if Spans(rows, n - 1) <= i {
      k := n - 1;
    } else {
      k := Covering(rows, n - 1, i);
    }
  }

  /** Placed ranges tile their registers: nothing is missed, nothing is shared. */
  lemma {:induction false} Tiles(rs: seq<Range>, rows: seq<Row>, base: nat, i: int)
    requires PlacedFrom(rs, rows, base)
    ensures Inside(rs, i) <==> base <= i < base + Spans(rows, |rows|)
    ensures forall j: nat, k: nat :: j < k < |rs| ==> !(Covers(rs[j], i) && Covers(rs[k], i))
  {
    hide Spans;
    forall k: nat | k < |rs| ensures base + Spans(rows, k) + rows[k].span <= base + Spans(rows, |rows|) {
      SpansOrdered(rows, k, |rows|);
    }
    forall j: nat, k: nat | j < k < |rs| ensures Spans(rows, j) + rows[j].span <= Spans(rows, k) {
      SpansOrdered(rows, j, k);
    }
    if base <= i < base + Spans(rows, |rows|) {
      var k := Covering(rows, |rows|, i - base);
      assert Covers(rs[k], i);
    }
  }

  lemma {:induction false} EnabledFits(rows: seq<Row>, word: Word, n: nat)
    requires Table(rows) && n <= |rows|
    ensures var e := Enabled(rows, word, n);
      Spans(e, |e|) <= Spans(rows, n) && |e| <= n && forall r :: r in e ==> r in rows && r.span > 0
  {
    hide Bit;
    if n > 0 {
      EnabledFits(rows, word, n - 1);
      var e, f := Enabled(rows, word, n - 1), Enabled(rows, word, n);
      SpansPrefix(e, f[|e|..], |e|);
      assert f == e + f[|e|..];
    }
  }

  lemma {:induction false} SpansPrefix(a: seq<Row>, b: seq<Row>, n: nat)
    requires n <= |a|
    ensures Spans(a + b, n) == Spans(a, n)
  {
    if n > 0 {
      SpansPrefix(a, b, n - 1);
    }
  }

  lemma TableTotals()
    ensures Table(USER_ORDER) && Table(SYSTEM_ORDER)
    ensures Spans(USER_ORDER, 7) == 15 && Spans(SYSTEM_ORDER, 5) == 5
  {
    assert Spans(USER_ORDER, 1) == 4;
    assert Spans(USER_ORDER, 2) == 6;
    assert Spans(USER_ORDER, 3) == 8;
    assert Spans(USER_ORDER, 4) == 10;
    assert Spans(USER_ORDER, 5) == 12;
    assert Spans(USER_ORDER, 6) == 14;
    assert Spans(SYSTEM_ORDER, 2) == 2;
    assert Spans(SYSTEM_ORDER, 4) == 4;
  }

  predicate Gap(p: Plan, i: int) {
    p.next <= i < p.declared
  }

  function SystemCount(d13: Word): nat {
    var e := Enabled(SYSTEM_ORDER, d13, 5);
    Spans(e, |e|)
  }

  /** The preloads take registers from 0 on, the system values from the declared
      count on, and the gap is what lies between; all below register 20. */
  lemma Layout(p: Plan, d13: Word, d14: Word, i: int)
    requires Describes(p, d13, d14)
    ensures Inside(p.user, i) <==> 0 <= i < p.next
    ensures Inside(p.system, i) <==> p.declared <= i < p.declared + SystemCount(d13)
    ensures Gap(p, i) ==> !Inside(p.user, i) && !Inside(p.system, i)
    ensures p.next <= 15 && p.declared <= 15 && SystemCount(d13) <= 5
  {
    hide Spans, Enabled, Bit;
    TableTotals();
    EnabledFits(USER_ORDER, d14, 7);
    EnabledFits(SYSTEM_ORDER, d13, 5);
    Tiles(p.user, Enabled(USER_ORDER, d14, 7), 0, i);
    Tiles(p.system, Enabled(SYSTEM_ORDER, d13, 5), p.declared, i);
  }

  predicate Disjoint(p: Plan) {
    forall i: int :: 0 <= i < 32 ==> !(Inside(p.user, i) && Inside(p.system, i))
  }

  /** No system value overwrites a preload if and only if the enabled preloads
      fit the declared count, or there is no system value. */
  lemma DisjointExactlyWhen(p: Plan, d13: Word, d14: Word)
    requires Describes(p, d13, d14)
    ensures Disjoint(p) <==> p.next <= p.declared || SystemCount(d13) == 0
  {
    hide Inside, Describes, SystemCount;
    forall i: int ensures (Inside(p.user, i) <==> 0 <= i < p.next)
      && (Inside(p.system, i) <==> p.declared <= i < p.declared + SystemCount(d13)) && p.declared <= 15 && p.next <= 15
    {
      Layout(p, d13, d14, i);
    }
    if p.declared < p.next && SystemCount(d13) > 0 {
      assert Inside(p.user, p.declared) && Inside(p.system, p.declared);
    }
  }

  /** A kernarg pointer, one system value and a declared count of zero: both want
      register 0. */
  lemma {:induction false} PreloadOverwritten()
    ensures var p := Plan([Range(0, 2, KernargSegmentPtr)], [Range(0, 1, WorkgroupIdX)], 2, 0);
      Describes(p, 0x80, 0x8) && Inside(p.user, 0) && Inside(p.system, 0)
  {
    var p := Plan([Range(0, 2, KernargSegmentPtr)], [Range(0, 1, WorkgroupIdX)], 2, 0);
    assert Enabled(USER_ORDER, 0x8, 7) == [Row(3, 2, KernargSegmentPtr)] by { OnlyRow(USER_ORDER, 0x8, 3, 7); }
    assert Enabled(SYSTEM_ORDER, 0x80, 5) == [Row(7, 1, WorkgroupIdX)] by { OnlyRow(SYSTEM_ORDER, 0x80, 0, 5); }
    assert Spans([Row(3, 2, KernargSegmentPtr)], 1) == 2;
    assert Covers(p.user[0], 0) && Covers(p.system[0], 0);
  }

  // A table of which the word enables one row.
  lemma {:induction false} OnlyRow(rows: seq<Row>, word: Word, k: nat, n: nat)
    requires Table(rows) && k < |rows| && n <= |rows|
    requires forall j: nat :: j < |rows| ==> (Bit(word, rows[j].bit) <==> j == k)
    ensures Enabled(rows, word, n) == if k < n then [rows[k]] else []
  {
    hide Bit;
    if n > 0 {
      OnlyRow(rows, word, k, n - 1);
    }
  }

  // ---------------- filling a core ----------------

  // What the caller supplies; the two pointers may be missing.
  datatype Supply = Supply(kernarg: Option<(Word, Word)>, packet: Option<(Word, Word)>,
                           x: Word, y: Word, z: Word, info: Word)

  // Whether the caller's values cover this preload.
  predicate Supplied(what: Semantic, env: Supply) {
    match what
    case KernargSegmentPtr => env.kernarg.Some?
    case DispatchPtr => env.packet.Some?
    case _ => true
  }

  // Dword j of a preload or of a system value.
  function ValueOf(what: Semantic, env: Supply, j: nat): Word
    requires Supplied(what, env)
  {
    match what
    case KernargSegmentPtr => if j == 0 then env.kernarg.value.0 else env.kernarg.value.1
    case DispatchPtr => if j == 0 then env.packet.value.0 else env.packet.value.1
    case PrivateSegmentBuffer => if j == 1 then 0x8000_0000 else 0
    case WorkgroupIdX => env.x
    case WorkgroupIdY => env.y
    case WorkgroupIdZ => env.z
    case WorkgroupInfo => env.info
    case _ => 0
  }

  // Register i holds what this range puts there.
  predicate Holds(now: C.SFile, r: Range, env: Supply, i: nat) {
    i < 128 && Supplied(r.what, env) && r.start <= i && now[i] == ValueOf(r.what, env, i - r.start)
  }

  // The registers of the first n ranges hold their values; the rest is as before.
  ghost predicate FilledWith(was: C.SFile, now: C.SFile, rs: seq<Range>, env: Supply, n: nat)
    requires n <= |rs|
  {
    && (forall k: nat, i: nat :: k < n && Covers(rs[k], i) ==> Holds(now, rs[k], env, i))
    && (forall i: nat :: i < 128 && !Inside(rs[..n], i) ==> now[i] == was[i])
  }

  method FillRange(core: WaveCore, r: Range, env: Supply)
    requires Supplied(r.what, env) && r.start + r.span <= 128
    modifies core`s
    ensures forall i: nat :: Covers(r, i) ==> Holds(core.s, r, env, i)
    ensures forall i: nat :: i < 128 && !Covers(r, i) ==> core.s[i] == old(core.s[i])
  {
    hide ValueOf, Supplied;
    for j := 0 to r.span
      invariant forall i: nat :: r.start <= i < r.start + j ==> core.s[i] == ValueOf(r.what, env, i - r.start)
      invariant forall i: nat :: i < 128 && !(r.start <= i < r.start + j) ==> core.s[i] == old(core.s[i])
    {
      core.s := core.s[r.start + j := ValueOf(r.what, env, j)];
    }
  }

  // Placed ranges that fit the register file.
  predicate Fits(rs: seq<Range>) {
    && (forall k: nat :: k < |rs| ==> rs[k].start + rs[k].span <= 32)
    && (forall j: nat, k: nat :: j < k < |rs| ==> rs[j].start + rs[j].span <= rs[k].start)
  }

  /** Fills the ranges in order; stops at the first without a value. */
  method FillRanges(core: WaveCore, rs: seq<Range>, env: Supply) returns (ok: bool)
    requires Fits(rs)
    modifies core`s
    ensures ok == forall k: nat :: k < |rs| ==> Supplied(rs[k].what, env)
    ensures ok ==> FilledWith(old(core.s), core.s, rs, env, |rs|)
  {
    hide ValueOf, Supplied, FilledWith;
    NothingFilled(core.s, rs, env);
    for n := 0 to |rs|
      invariant FilledWith(old(core.s), core.s, rs, env, n)
      invariant forall k: nat :: k < n ==> Supplied(rs[k].what, env)
    {
      if !Supplied(rs[n].what, env) {
        return false;
      }
      ghost var mid := core.s;
      FillRange(core, rs[n], env);
      OneMoreFilled(old(core.s), mid, core.s, rs, env, n);
    }
    ok := true;
  }

  lemma NothingFilled(s: C.SFile, rs: seq<Range>, env: Supply)
    ensures FilledWith(s, s, rs, env, 0)
  {
  }

  lemma {:induction false} OneMoreFilled(was: C.SFile, mid: C.SFile, now: C.SFile, rs: seq<Range>, env: Supply, n: nat)
    requires n < |rs| && Fits(rs) && FilledWith(was, mid, rs, env, n)
    requires forall i: nat :: Covers(rs[n], i) ==> Holds(now, rs[n], env, i)
    requires forall i: nat :: i < 128 && !Covers(rs[n], i) ==> now[i] == mid[i]
    ensures FilledWith(was, now, rs, env, n + 1)
  {
    hide ValueOf, Supplied;
    forall i: nat | i < 128 && !Inside(rs[..n + 1], i) ensures now[i] == was[i] {
      assert !Covers(rs[..n + 1][n], i);
      forall k: nat | k < n ensures !Covers(rs[..n][k], i) { assert !Covers(rs[..n + 1][k], i); }
      assert !Inside(rs[..n], i);
    }
    forall k: nat, i: nat | k < n && Covers(rs[k], i) ensures Holds(now, rs[k], env, i) {
      assert !Covers(rs[n], i);
    }
  }

  lemma {:induction false} PlacedFits(rs: seq<Range>, rows: seq<Row>, base: nat)
    requires PlacedFrom(rs, rows, base) && base + Spans(rows, |rows|) <= 32
    ensures Fits(rs)
  {
    hide Spans;
    forall k: nat | k < |rs| ensures rs[k].start + rs[k].span <= 32 {
      SpansOrdered(rows, k, |rows|);
    }
    forall j: nat, k: nat | j < k < |rs| ensures rs[j].start + rs[j].span <= rs[k].start {
      SpansOrdered(rows, j, k);
    }
  }

  lemma PlanFits(p: Plan, d13: Word, d14: Word)
    requires Describes(p, d13, d14)
    ensures Fits(p.user) && Fits(p.system) && p.next <= 15 && p.declared <= 15
  {
    hide Spans, Enabled, Bit;
    Layout(p, d13, d14, 0);
    PlacedFits(p.user, Enabled(USER_ORDER, d14, 7), 0);
    PlacedFits(p.system, Enabled(SYSTEM_ORDER, d13, 5), p.declared);
  }

  /** What a filled register file holds: every system value; every preload that
      no system value overwrites; everywhere else what was there before. */
  ghost predicate EntryHolds(was: C.SFile, now: C.SFile, p: Plan, env: Supply)
    requires Fits(p.user) && Fits(p.system)
  {
    && (forall k: nat, i: nat :: k < |p.user| && Covers(p.user[k], i) && !Inside(p.system, i) ==>
          Holds(now, p.user[k], env, i))
    && (forall k: nat, i: nat :: k < |p.system| && Covers(p.system[k], i) ==> Holds(now, p.system[k], env, i))
    && (forall i: nat :: i < 128 && !Inside(p.user, i) && !Inside(p.system, i) ==> now[i] == was[i])
  }

  lemma {:induction false} BothFilled(was: C.SFile, mid: C.SFile, now: C.SFile, p: Plan, env: Supply)
    requires Fits(p.user) && Fits(p.system)
    requires FilledWith(was, mid, p.user, env, |p.user|) && FilledWith(mid, now, p.system, env, |p.system|)
    ensures EntryHolds(was, now, p, env)
  {
    hide ValueOf, Supplied, Inside;
    assert p.user[..|p.user|] == p.user && p.system[..|p.system|] == p.system;
  }

  // The registers of the gap.
  function Between(a: nat, b: nat): set<nat> {
    if a < b then Between(a, b - 1) + {b - 1} else {}
  }

  lemma {:induction false} BetweenHolds(a: nat, b: nat, i: nat)
    ensures i in Between(a, b) <==> a <= i < b
  {
    if a < b {
      BetweenHolds(a, b - 1, i);
    }
  }

  /** The preloads, then the system values, then the gap is marked undefined.
      It fails exactly when a preload has no value. */
  method FillEntry(core: WaveCore, p: Plan, env: Supply, ghost d13: Word, ghost d14: Word) returns (ok: bool)
    requires Describes(p, d13, d14)
    modifies core`s, core`undef
    ensures Fits(p.user) && Fits(p.system)
    ensures ok == forall k: nat :: k < |p.user| ==> Supplied(p.user[k].what, env)
    ensures ok ==> EntryHolds(old(core.s), core.s, p, env)
    ensures ok ==> core.undef == old(core.undef) + Between(p.next, p.declared)
  {
    hide Describes, FilledWith, EntryHolds, Fits, Supplied;
    PlanFits(p, d13, d14);
    SystemSupplied(p, d13, d14, env);
    ok := FillRanges(core, p.user, env);
    if !ok {
      return;
    }
    ghost var mid := core.s;
    var done := FillRanges(core, p.system, env);
    BothFilled(old(core.s), mid, core.s, p, env);
    var last := if p.next < p.declared then p.declared else p.next;
    assert Between(p.next, last) == Between(p.next, p.declared);
    ghost var now := core.s;
    for i := p.next to last
      invariant core.s == now
      invariant core.undef == old(core.undef) + Between(p.next, i)
    {
      core.undef := core.undef + {i};
    }
  }

  lemma {:induction false} SystemSupplied(p: Plan, d13: Word, d14: Word, env: Supply)
    requires Describes(p, d13, d14)
    ensures forall k: nat :: k < |p.system| ==> Supplied(p.system[k].what, env)
  {
    hide Spans, Bit, Enabled;
    var e := Enabled(SYSTEM_ORDER, d13, 5);
    TableTotals();
    EnabledFits(SYSTEM_ORDER, d13, 5);
    forall k: nat | k < |p.system| ensures Supplied(p.system[k].what, env) {
      assert e[k] in e;
      assert e[k] in SYSTEM_ORDER;
    }
  }

  // ---------------- the gap is unobservable ----------------

  /** Two cores entered through the same plan agree up to undefined registers,
      whatever the registers of the gap held before. */
  lemma {:induction false} EntriesAgree(p: Plan, d13: Word, d14: Word, env: Supply, a0: C.Core, b0: C.Core, a: C.SFile, b: C.SFile)
    requires Describes(p, d13, d14) && Fits(p.user) && Fits(p.system)
    requires b0 == a0.(s := b0.s) && a0.cycles.NoKeys? && a0.undef == {}
    requires forall i: SIdx :: !Gap(p, i) ==> a0.s[i] == b0.s[i]
    requires EntryHolds(a0.s, a, p, env) && EntryHolds(b0.s, b, p, env)
    ensures var undef := Between(p.next, p.declared);
      FailClosed.Agree(a0.(s := a, undef := undef), b0.(s := b, undef := undef))
  {
    hide Describes, Between, EntryHolds, Inside;
    Layout(p, d13, d14, 0);
    BetweenHolds(p.next, p.declared, C.M0_REG);
    forall i: SIdx | i !in Between(p.next, p.declared) ensures a[i] == b[i] {
      BetweenHolds(p.next, p.declared, i);
      SameOutsideGap(p, env, a0.s, b0.s, a, b, i);
    }
  }

  lemma {:induction false} SameOutsideGap(p: Plan, env: Supply, was: C.SFile, other: C.SFile, a: C.SFile, b: C.SFile, i: SIdx)
    requires Fits(p.user) && Fits(p.system) && was[i] == other[i]
    requires EntryHolds(was, a, p, env) && EntryHolds(other, b, p, env)
    ensures a[i] == b[i]
  {
    hide ValueOf, Supplied;
    if Inside(p.system, i) {
      var k: nat :| k < |p.system| && Covers(p.system[k], i);
    } else if Inside(p.user, i) {
      var k: nat :| k < |p.user| && Covers(p.user[k], i);
    }
  }
}
