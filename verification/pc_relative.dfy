/** Static PC-relative targets against the registers the emulator computes. */
module PcRelative {
  import opened Words
  import opened Isa
  import opened CoreSpec

  const WORD: int := 0x1_0000_0000
  const ADDRESSES: int := 0x1_0000_0000_0000_0000
  const TEXT_BASE: nat := 0x3000_0000

  // The first register of a pair.
  type PairIdx = i: int | 0 <= i < 127

  // The instructions the scan looks at; everything else is a filler.
  datatype Insn =
    | GetPc(pair: PairIdx)                       // s_getpc_b64 s[dst:dst+1]
    | AddLow(dst: SIdx, src: SIdx, lit: int)     // s_add_u32 with a literal
    | AddHigh(dst: SIdx, src: SIdx, lit: int)    // s_addc_u32 with a literal
    | Filler(mnemonic: string)

  datatype Line = Line(addr: nat, op: Insn)

  // Address of the getpc, and its target when the triple is complete.
  datatype Site = Site(pc: nat, target: Option<nat>)

  // ---------------- the scan ----------------

  datatype Found = Found(lo: Option<int>, hi: Option<int>)

  // Lines k to end, given what was found before.
  function Search(code: seq<Line>, k: nat, end: nat, lo: Option<int>): Found
    requires end <= |code|
    decreases end - k
  {
    if k >= end then Found(lo, None)
    else match code[k].op
      case AddLow(_, _, lit) => Search(code, k + 1, end, if lo.None? then Some(lit) else lo)
      case AddHigh(_, _, lit) => if lo.Some? then Found(lo, Some(lit)) else Search(code, k + 1, end, lo)
      case _ => Search(code, k + 1, end, lo)
  }

  function Signed64(v: nat): int {
    var w := v % ADDRESSES;
    if w >= ADDRESSES / 2 then w - ADDRESSES else w
  }

  function Target(a: nat, lo: int, hi: int): nat {
    (a + 4 + Signed64((hi % WORD) * WORD + lo % WORD)) % ADDRESSES
  }

  function SiteAt(code: seq<Line>, i: nat): Site
    requires i < |code|
  {
    var f := Search(code, i + 1, if i + 4 < |code| then i + 4 else |code|, None);
    Site(code[i].addr, if f.lo.Some? && f.hi.Some? then Some(Target(code[i].addr, f.lo.value, f.hi.value)) else None)
  }

  // The sites of the first n lines, in order.
  function Sites(code: seq<Line>, n: nat): seq<Site>
    requires n <= |code|
  {
    if n == 0 then []
    else Sites(code, n - 1) + if code[n - 1].op.GetPc? then [SiteAt(code, n - 1)] else []
  }

  function Mnemonic(op: Insn): string {
    match op
    case GetPc(_) => "s_getpc_b64"
    case AddLow(_, _, _) => "s_add_u32"
    case AddHigh(_, _, _) => "s_addc_u32"
    case Filler(m) => m
  }

  // The mnemonics passed over before the low half is found.
  function Skipped(code: seq<Line>, k: nat, end: nat): seq<string>
    requires end <= |code|
    decreases end - k
  {
    if k >= end || code[k].op.AddLow? then [] else [Mnemonic(code[k].op)] + Skipped(code, k + 1, end)
  }

  // A profile lists the mnemonics that may be passed over.
  type Profile = Option<set<string>>

  predicate Permits(profile: Profile, ms: seq<string>) {
    profile.Some? ==> forall k: nat :: k < |ms| ==> ms[k] == "" || ms[k] in profile.value
  }

  predicate PermitsAt(profile: Profile, code: seq<Line>, i: nat)
    requires i < |code|
  {
    Permits(profile, Skipped(code, i + 1, if i + 4 < |code| then i + 4 else |code|))
  }

  // The sites, or the address of the first getpc the profile objects to.
  datatype Scan = Listed(sites: seq<Site>) | Objection(pc: nat)

  function ScanUpTo(profile: Profile, code: seq<Line>, n: nat): Scan
    requires n <= |code|
  {
    if n == 0 then Listed([])
    else
      match ScanUpTo(profile, code, n - 1)
      case Objection(pc) => Objection(pc)
      case Listed(sites) =>
        if !code[n - 1].op.GetPc? then Listed(sites)
        else if PermitsAt(profile, code, n - 1) then Listed(sites + [SiteAt(code, n - 1)])
        else Objection(code[n - 1].addr)
  }

  /** find_sites. */
  method FindSites(code: seq<Line>, profile: Profile) returns (out: Scan)
    ensures out == ScanUpTo(profile, code, |code|)
  {
    hide Target, Permits;
    var sites: seq<Site> := [];
    for i := 0 to |code|
      invariant ScanUpTo(profile, code, i) == Listed(sites)
    {
      if code[i].op.GetPc? {
        var lo, hi, skipped := Window(code, i);
        if !Permits(profile, skipped) {
          StaysObjection(profile, code, i + 1, |code|);
          return Objection(code[i].addr);
        }
        var target := if lo.Some? && hi.Some? then Some(Target(code[i].addr, lo.value, hi.value)) else None;
        sites := sites + [Site(code[i].addr, target)];
      }
    }
    out := Listed(sites);
  }

  // The three lines behind a getpc.
  method Window(code: seq<Line>, i: nat) returns (lo: Option<int>, hi: Option<int>, skipped: seq<string>)
    requires i < |code|
    ensures var end := if i + 4 < |code| then i + 4 else |code|;
      Search(code, i + 1, end, None) == Found(lo, hi) && skipped == Skipped(code, i + 1, end)
  {
    hide Search, Skipped, Mnemonic;
    lo, hi, skipped := None, None, [];
    var end := if i + 4 < |code| then i + 4 else |code|;
    var k := i + 1;
    while k < end && hi.None?
      invariant i + 1 <= k <= end
      invariant Search(code, i + 1, end, None) == if hi.None? then Search(code, k, end, lo) else Found(lo, hi)
      invariant hi.Some? ==> lo.Some?
      invariant Skipped(code, i + 1, end) == if lo.Some? then skipped else skipped + Skipped(code, k, end)
      decreases end - k, if hi.None? then 1 else 0
    {
      SearchNext(code, k, end, lo);
      SkippedNext(code, k, end);
      Regroup(skipped, Mnemonic(code[k].op), Skipped(code, k + 1, end));
      match code[k].op {
        case AddLow(_, _, lit) => if lo.None? { lo := Some(lit); }
        case AddHigh(_, _, lit) => if lo.Some? { hi := Some(lit); } else { skipped := skipped + [Mnemonic(code[k].op)]; }
        case _ => if lo.None? { skipped := skipped + [Mnemonic(code[k].op)]; }
      }
      k := k + 1;
    }
    WindowEnds(code, end, lo);
  }

  lemma Regroup<T>(a: seq<T>, x: T, b: seq<T>)
    ensures a + ([x] + b) == (a + [x]) + b
  {
  }

  lemma SearchNext(code: seq<Line>, k: nat, end: nat, lo: Option<int>)
    requires k < end <= |code|
    ensures Search(code, k, end, lo) == match code[k].op
      case AddLow(_, _, lit) => Search(code, k + 1, end, if lo.None? then Some(lit) else lo)
      case AddHigh(_, _, lit) => if lo.Some? then Found(lo, Some(lit)) else Search(code, k + 1, end, lo)
      case _ => Search(code, k + 1, end, lo)
  {
  }

  lemma SkippedNext(code: seq<Line>, k: nat, end: nat)
    requires k < end <= |code|
    ensures var rest := Skipped(code, k + 1, end);
      Skipped(code, k, end) == if code[k].op.AddLow? then [] else [Mnemonic(code[k].op)] + rest
  {
    hide Mnemonic;
  }

  lemma WindowEnds(code: seq<Line>, end: nat, lo: Option<int>)
    requires end <= |code|
    ensures Search(code, end, end, lo) == Found(lo, None) && Skipped(code, end, end) == []
  {
  }

  lemma {:induction false} StaysObjection(profile: Profile, code: seq<Line>, m: nat, n: nat)
    requires m <= n <= |code| && ScanUpTo(profile, code, m).Objection?
    ensures ScanUpTo(profile, code, n) == ScanUpTo(profile, code, m)
  {
    if m < n {
      StaysObjection(profile, code, m, n - 1);
    }
  }

  /** All sites are listed, one per getpc in order, if and only if the profile
      permits everything passed over; without a profile that is always so. */
  lemma {:induction false} ListedExactlyWhen(profile: Profile, code: seq<Line>, n: nat)
    requires n <= |code|
    ensures ScanUpTo(profile, code, n).Listed?
      <==> forall i: nat :: i < n && code[i].op.GetPc? ==> PermitsAt(profile, code, i)
    ensures ScanUpTo(profile, code, n).Listed? ==> ScanUpTo(profile, code, n).sites == Sites(code, n)
    ensures profile.None? ==> ScanUpTo(profile, code, n) == Listed(Sites(code, n))
  {
    hide SiteAt, Skipped;
    if n > 0 {
      ListedExactlyWhen(profile, code, n - 1);
    }
  }

  // ---------------- the emulated registers ----------------

  // The handlers of the three instructions; a filler leaves the registers alone.
  // s_getpc writes the pair without marking it as defined.
  function Execute(c: Core, sh: Shared, l: Line): Stepped {
    match l.op
    case GetPc(d) =>
      var pc := TEXT_BASE + l.addr + 4;
      Stepped(c.(s := c.s[d := Trunc(pc)][d + 1 := Trunc(pc / WORD)]), sh, Fine)
    case AddLow(d, a, lit) => StepAdd(c, sh, SReg(d), SReg(a), Lit(lit), 0)
    case AddHigh(d, a, lit) => StepAdd(c, sh, SReg(d), SReg(a), Lit(lit), if c.scc then 1 else 0)
    case Filler(_) => Stepped(c, sh, Fine)
  }

  // Lines i to j, up to the first that halts.
  function ExecuteAll(c: Core, sh: Shared, code: seq<Line>, i: nat, j: nat): Stepped
    requires i <= j <= |code|
    decreases j - i
  {
    if i == j then Stepped(c, sh, Fine)
    else
      var r := Execute(c, sh, code[i]);
      if r.signal.Fine? then ExecuteAll(r.core, r.shared, code, i + 1, j) else r
  }

  function Number(w: Word): nat {
    w as int
  }

  // The 64-bit value of a register pair.
  function PairOf(c: Core, d: PairIdx): nat {
    Number(c.s[d + 1]) * WORD + Number(c.s[d])
  }

  // Register r holds x cut to 32 bits, SCC says whether that lost anything.
  predicate Added(c: Core, c': Core, r: SIdx, x: int) {
    && Number(c'.s[r]) == x % WORD && c'.scc == (x > WORD - 1) && c'.undef == c.undef - {r}
    && forall k: nat :: k < 128 && k != r ==> c'.s[k] == c.s[k]
  }

  // What the add handlers make of a register and a literal.
  lemma Adds(c: Core, sh: Shared, r: SIdx, lit: int, carry: int)
    ensures var t := StepAdd(c, sh, SReg(r), SReg(r), Lit(lit), carry);
      if r in c.undef then t == Stepped(c, sh, UndefRead(r))
      else t.signal.Fine? && t.shared == sh && Added(c, t.core, r, Number(c.s[r]) + lit + carry)
  {
    hide Trunc;
    TruncIs(Number(c.s[r]) + lit + carry);
  }

  // ---------------- agreement ----------------

  /** The usual triple: the low half is at most one filler behind the getpc, the
      high half follows within the window, all on the same register pair. */
  predicate Triple(code: seq<Line>, i: nat, p: nat, q: nat, lo: int, hi: int) {
    && i < p < q < |code| && q < i + 4
    && code[i].op.GetPc?
    && code[p].op == AddLow(code[i].op.pair, code[i].op.pair, lo)
    && code[q].op == AddHigh(code[i].op.pair + 1, code[i].op.pair + 1, hi)
    && (forall k: nat :: i < k < q && k != p ==> code[k].op.Filler?)
    && -WORD < lo < WORD && -WORD < hi < WORD
  }

  lemma {:induction false} TripleIsFound(code: seq<Line>, i: nat, p: nat, q: nat, lo: int, hi: int)
    requires Triple(code, i, p, q, lo, hi)
    ensures SiteAt(code, i).target == Some(Target(code[i].addr, lo, hi))
  {
    hide Target;
    var end := if i + 4 < |code| then i + 4 else |code|;
    SkipFillers(code, i + 1, p, end, None);
    SkipFillers(code, p + 1, q, end, Some(lo));
  }

  lemma {:induction false} SkipFillers(code: seq<Line>, k: nat, j: nat, end: nat, lo: Option<int>)
    requires k <= j <= end <= |code| && forall n: nat :: k <= n < j ==> code[n].op.Filler?
    ensures Search(code, k, end, lo) == Search(code, j, end, lo)
    decreases j - k
  {
    if k < j {
      SkipFillers(code, k + 1, j, end, lo);
    }
  }

  // The pair after the triple.
  function Dynamic(a: nat, lo: int, hi: int): nat {
    var pc := TEXT_BASE + a + 4;
    var r := pc % WORD + lo;
    (pc / WORD % WORD + hi + if r > WORD - 1 then 1 else 0) % WORD * WORD + r % WORD
  }

  lemma NextLine(c: Core, sh: Shared, code: seq<Line>, k: nat, end: nat)
    requires k < end <= |code|
    ensures var r := Execute(c, sh, code[k]);
      ExecuteAll(c, sh, code, k, end) == if r.signal.Fine? then ExecuteAll(r.core, r.shared, code, k + 1, end) else r
    ensures ExecuteAll(c, sh, code, end, end) == Stepped(c, sh, Fine)
  {
    hide Execute;
  }

  lemma {:induction false} FillersDoNothing(c: Core, sh: Shared, code: seq<Line>, k: nat, j: nat, end: nat)
    requires k <= j <= end <= |code| && forall n: nat :: k <= n < j ==> code[n].op.Filler?
    ensures ExecuteAll(c, sh, code, k, end) == ExecuteAll(c, sh, code, j, end)
    decreases j - k
  {
    hide StepAdd;
    if k < j {
      FillersDoNothing(c, sh, code, k + 1, j, end);
    }
  }

  // The pair holds the address after the line at a.
  predicate HoldsPc(c: Core, d: PairIdx, high: SIdx, a: nat) {
    var pc := TEXT_BASE + a + 4;
    Number(c.s[d]) == pc % WORD && Number(c.s[high]) == pc / WORD % WORD
  }

  // The getpc line.
  lemma PairWritten(c: Core, sh: Shared, l: Line, high: SIdx)
    requires l.op.GetPc? && high == l.op.pair + 1
    ensures var r := Execute(c, sh, l);
      r.signal.Fine? && r.shared == sh && r.core.undef == c.undef && HoldsPc(r.core, l.op.pair, high, l.addr)
  {
    hide Trunc;
    TruncIs(TEXT_BASE + l.addr + 4);
    TruncIs((TEXT_BASE + l.addr + 4) / WORD);
  }

  // The line adds a literal to a register, in place.
  predicate AddsAt(c: Core, l: Line, r: SIdx, lit: int, carry: int) {
    (l.op == AddLow(r, r, lit) && carry == 0) || (l.op == AddHigh(r, r, lit) && carry == if c.scc then 1 else 0)
  }

  lemma AddExecutes(c: Core, sh: Shared, l: Line, r: SIdx, lit: int, carry: int)
    requires AddsAt(c, l, r, lit, carry)
    ensures Execute(c, sh, l) == StepAdd(c, sh, SReg(r), SReg(r), Lit(lit), carry)
  {
    hide StepAdd;
  }

  // An add line after any fillers: refused ...
  lemma {:induction false} AddRefused(c: Core, sh: Shared, code: seq<Line>, k: nat, j: nat, end: nat,
                                      r: SIdx, lit: int, carry: int)
    requires k <= j < end <= |code| && forall n: nat :: k <= n < j ==> code[n].op.Filler?
    requires AddsAt(c, code[j], r, lit, carry) && r in c.undef
    ensures ExecuteAll(c, sh, code, k, end).signal == UndefRead(r)
  {
    hide ExecuteAll, Execute, StepAdd, AddsAt, Number;
    FillersDoNothing(c, sh, code, k, j, end);
    NextLine(c, sh, code, j, end);
    AddExecutes(c, sh, code[j], r, lit, carry);
    Adds(c, sh, r, lit, carry);
  }

  // ... or added.
  lemma {:induction false} AddLine(c: Core, sh: Shared, code: seq<Line>, k: nat, j: nat, end: nat,
                                   r: SIdx, lit: int, carry: int) returns (c': Core)
    requires k <= j < end <= |code| && forall n: nat :: k <= n < j ==> code[n].op.Filler?
    requires AddsAt(c, code[j], r, lit, carry) && r !in c.undef
    ensures Added(c, c', r, Number(c.s[r]) + lit + carry)
    ensures ExecuteAll(c, sh, code, k, end) == ExecuteAll(c', sh, code, j + 1, end)
  {
    hide ExecuteAll, Execute, StepAdd, Added, AddsAt, Number;
    FillersDoNothing(c, sh, code, k, j, end);
    NextLine(c, sh, code, j, end);
    AddExecutes(c, sh, code[j], r, lit, carry);
    Adds(c, sh, r, lit, carry);
    c' := StepAdd(c, sh, SReg(r), SReg(r), Lit(lit), carry).core;
  }

  lemma AddedAt(c: Core, c': Core, r: SIdx, x: int)
    requires Added(c, c', r, x)
    ensures Number(c'.s[r]) == x % WORD && c'.scc == (x > WORD - 1)
  {
  }

  lemma AddedElsewhere(c: Core, c': Core, r: SIdx, x: int, k: SIdx)
    requires Added(c, c', r, x) && k != r
    ensures c'.s[k] == c.s[k]
  {
  }

  lemma DynamicParts(a: nat, lo: int, hi: int, carry: int, low: int, top: int)
    requires var pc := TEXT_BASE + a + 4;
      && low == (pc % WORD + lo) % WORD && carry == (if pc % WORD + lo > WORD - 1 then 1 else 0)
      && top == (pc / WORD % WORD + hi + carry) % WORD
    ensures Dynamic(a, lo, hi) == top * WORD + low
  {
  }

  lemma PcParts(c: Core, d: PairIdx, high: SIdx, a: nat)
    requires HoldsPc(c, d, high, a)
    ensures var pc := TEXT_BASE + a + 4; Number(c.s[d]) == pc % WORD && Number(c.s[high]) == pc / WORD % WORD
  {
  }

  lemma TripleEnds(c1: Core, c2: Core, c3: Core, d: PairIdx, a: nat, lo: int, hi: int, high: SIdx, carry: int)
    requires high == d + 1 && carry == if c2.scc then 1 else 0
    requires HoldsPc(c1, d, high, a)
    requires Added(c1, c2, d, Number(c1.s[d]) + lo + 0) && Added(c2, c3, high, Number(c2.s[high]) + hi + carry)
    ensures PairOf(c3, d) == Dynamic(a, lo, hi)
  {
    hide Added, HoldsPc, Dynamic, Number;
    PcParts(c1, d, high, a);
    AddedAt(c1, c2, d, Number(c1.s[d]) + lo + 0);
    AddedElsewhere(c1, c2, d, Number(c1.s[d]) + lo + 0, high);
    AddedAt(c2, c3, high, Number(c2.s[high]) + hi + carry);
    AddedElsewhere(c2, c3, high, Number(c2.s[high]) + hi + carry, d);
    DynamicParts(a, lo, hi, carry, Number(c3.s[d]), Number(c3.s[high]));
  }

  lemma AddedUndef(c: Core, c': Core, r: SIdx, x: int)
    requires Added(c, c', r, x)
    ensures c'.undef == c.undef - {r}
  {
  }

  lemma {:induction false} AfterGetPc(c: Core, sh: Shared, code: seq<Line>, i: nat, end: nat, d: PairIdx, high: SIdx) returns (c1: Core)
    requires i < end <= |code| && code[i].op == GetPc(d) && high == d + 1
    ensures ExecuteAll(c, sh, code, i, end) == ExecuteAll(c1, sh, code, i + 1, end)
    ensures c1.undef == c.undef && HoldsPc(c1, d, high, code[i].addr)
  {
    hide Execute, ExecuteAll, HoldsPc;
    c1 := Execute(c, sh, code[i]).core;
    NextLine(c, sh, code, i, end);
    PairWritten(c, sh, code[i], high);
  }

  // Both adds, when both halves can be read.
  lemma {:induction false} BothAdds(c1: Core, sh: Shared, code: seq<Line>, i: nat, p: nat, q: nat, lo: int, hi: int,
                                    d: PairIdx, high: SIdx)
    requires Triple(code, i, p, q, lo, hi) && d == code[i].op.pair && high == d + 1
    requires HoldsPc(c1, d, high, code[i].addr)
    requires d !in c1.undef && high !in c1.undef
    ensures var r := ExecuteAll(c1, sh, code, i + 1, q + 1); r.signal.Fine? && PairOf(r.core, d) == Dynamic(code[i].addr, lo, hi)
  {
    hide Execute, ExecuteAll, Added, PairOf, Dynamic, Triple, AddsAt, HoldsPc, Number;
    TripleParts(code, i, p, q, lo, hi, d, high);
    var c2 := AddLine(c1, sh, code, i + 1, p, q + 1, d, lo, 0);
    AddedUndef(c1, c2, d, Number(c1.s[d]) + lo + 0);
    var carry := if c2.scc then 1 else 0;
    var c3 := AddLine(c2, sh, code, p + 1, q, q + 1, high, hi, carry);
    NextLine(c3, sh, code, q, q + 1);
    TripleEnds(c1, c2, c3, d, code[i].addr, lo, hi, high, carry);
  }

  lemma {:induction false} HighRefused(c1: Core, sh: Shared, code: seq<Line>, i: nat, p: nat, q: nat, lo: int, hi: int,
                                       d: PairIdx, high: SIdx)
    requires Triple(code, i, p, q, lo, hi) && d == code[i].op.pair && high == d + 1
    requires d !in c1.undef && high in c1.undef
    ensures ExecuteAll(c1, sh, code, i + 1, q + 1).signal == UndefRead(high)
  {
    hide Execute, ExecuteAll, Added, Triple, AddsAt, Number;
    TripleParts(code, i, p, q, lo, hi, d, high);
    var c2 := AddLine(c1, sh, code, i + 1, p, q + 1, d, lo, 0);
    AddedUndef(c1, c2, d, Number(c1.s[d]) + lo + 0);
    AddRefused(c2, sh, code, p + 1, q, q + 1, high, hi, if c2.scc then 1 else 0);
  }

  /** The three handlers leave that pair, or halt at the first half that was
      undefined before. */
  lemma {:induction false} TripleComputes(c: Core, sh: Shared, code: seq<Line>, i: nat, p: nat, q: nat, lo: int, hi: int)
    requires Triple(code, i, p, q, lo, hi)
    ensures var d: int, r := code[i].op.pair, ExecuteAll(c, sh, code, i, q + 1);
      if d in c.undef then r.signal == UndefRead(d)
      else if d + 1 in c.undef then r.signal == UndefRead(d + 1)
      else r.signal.Fine? && PairOf(r.core, d) == Dynamic(code[i].addr, lo, hi)
  {
    hide Execute, ExecuteAll, PairOf, Dynamic, AddsAt, HoldsPc, Number;
    var d: PairIdx := code[i].op.pair;
    var high: SIdx := code[i].op.pair + 1;
    TripleParts(code, i, p, q, lo, hi, d, high);
    var c1 := AfterGetPc(c, sh, code, i, q + 1, d, high);
    if d in c.undef {
      AddRefused(c1, sh, code, i + 1, p, q + 1, d, lo, 0);
    } else if high in c.undef {
      HighRefused(c1, sh, code, i, p, q, lo, hi, d, high);
    } else {
      BothAdds(c1, sh, code, i, p, q, lo, hi, d, high);
    }
  }

  lemma TripleParts(code: seq<Line>, i: nat, p: nat, q: nat, lo: int, hi: int, d: PairIdx, high: SIdx)
    requires Triple(code, i, p, q, lo, hi) && d == code[i].op.pair && high == d + 1
    ensures i < p < q < |code| && code[i].op == GetPc(d)
    ensures forall k: nat :: i + 1 <= k < p ==> code[k].op.Filler?
    ensures forall k: nat :: p + 1 <= k < q ==> code[k].op.Filler?
    ensures forall c: Core :: AddsAt(c, code[p], d, lo, 0)
    ensures forall c: Core :: AddsAt(c, code[q], high, hi, if c.scc then 1 else 0)
  {
  }

  // A negative low literal that does not borrow from the low half.
  predicate LosesCarry(a: nat, lo: int) {
    lo < 0 && (TEXT_BASE + a + 4) % WORD + lo >= 0
  }

  lemma ModShift(x: int, k: int, m: nat)
    requires m > 0
    ensures (x + k * m) % m == x % m
  {
    var q, r := x / m, x % m;
    assert x + k * m == (q + k) * m + r;
    DivUnique(x + k * m, m, q + k, r);
  }

  lemma DivUnique(x: int, m: nat, q: int, r: int)
    requires m > 0 && x == q * m + r && 0 <= r < m
    ensures x / m == q && x % m == r
  {
    var q2, r2 := x / m, x % m;
    assert x == q2 * m + r2;
    assert (q + 1) * m == q * m + m && (q2 + 1) * m == q2 * m + m;
    CancelBelow(q, q2 + 1, m);
    CancelBelow(q2, q + 1, m);
  }

  lemma CancelBelow(a: int, b: int, m: nat)
    requires a * m < b * m
    ensures a < b
  {
    ScaledUp(b, a, m);
  }

  lemma ScaledUp(a: int, b: int, m: nat)
    ensures a <= b ==> a * m <= b * m
  {
    if a <= b {
      assert b * m == a * m + (b - a) * m;
    }
  }

  // Both sides, with the multiples of 2^32 in sight.
  lemma DynamicIs(a: nat, lo: int, hi: int)
    requires -WORD < lo < WORD
    ensures var pc := TEXT_BASE + a + 4;
      Dynamic(a, lo, hi) == (pc + lo + hi * WORD + if LosesCarry(a, lo) || lo >= 0 then 0 else WORD) % ADDRESSES
  {
    var pc := TEXT_BASE + a + 4;
    var p0, p1, p2 := pc % WORD, pc / WORD % WORD, pc / ADDRESSES;
    var r := p0 + lo;
    var scc := if r > WORD - 1 then 1 else 0;
    var f := r / WORD;
    assert r == f * WORD + r % WORD;
    assert f == (if r < 0 then -1 else scc);
    var h := p1 + hi + scc;
    var g := h / WORD;
    assert h == g * WORD + h % WORD;
    assert pc == p2 * ADDRESSES + p1 * WORD + p0 by { Digits(pc); }
    var extra := if LosesCarry(a, lo) || lo >= 0 then 0 else WORD;
    var x := Dynamic(a, lo, hi);
    assert x == (h - g * WORD) * WORD + (r - f * WORD);
    assert scc - f == (if r < 0 then 1 else 0);
    assert x == pc + lo + hi * WORD + extra + (-p2 - g) * ADDRESSES;
    ModShift(pc + lo + hi * WORD + extra, -p2 - g, ADDRESSES);
    assert 0 <= x < ADDRESSES;
  }

  lemma Digits(pc: nat)
    ensures pc == pc / ADDRESSES * ADDRESSES + pc / WORD % WORD * WORD + pc % WORD
  {
    var q := pc / WORD;
    assert pc == q * WORD + pc % WORD;
    assert q == q / WORD * WORD + q % WORD;
    DivUnique(pc, ADDRESSES, q / WORD, q % WORD * WORD + pc % WORD);
  }

  // The static target without its reductions.
  lemma TargetParts(a: nat, lo: int, hi: int) returns (n: int)
    ensures Target(a, lo, hi) == a + 4 + (hi % WORD) * WORD + lo % WORD - n * ADDRESSES
  {
    var v := (hi % WORD) * WORD + lo % WORD;
    var k := if v >= ADDRESSES / 2 then 1 else 0;
    assert 0 <= v < ADDRESSES;
    assert Signed64(v) == v - k * ADDRESSES;
    var y := a + 4 + Signed64(v);
    n := k + y / ADDRESSES;
    assert y == y / ADDRESSES * ADDRESSES + Target(a, lo, hi);
  }

  lemma TargetIs(a: nat, lo: int, hi: int)
    requires -WORD < lo < WORD
    ensures (Target(a, lo, hi) + TEXT_BASE) % ADDRESSES
      == (TEXT_BASE + a + 4 + lo + hi * WORD + if lo < 0 then WORD else 0) % ADDRESSES
  {
    hide Target;
    var n := TargetParts(a, lo, hi);
    var g := hi / WORD;
    assert hi == g * WORD + hi % WORD;
    var f := if lo < 0 then 1 else 0;
    DivUnique(lo, WORD, -f, lo + f * WORD);
    var z := TEXT_BASE + a + 4 + lo + hi * WORD + f * WORD;
    assert Target(a, lo, hi) + TEXT_BASE == z + (-g - n) * ADDRESSES;
    ModShift(z, -g - n, ADDRESSES);
  }

  lemma WordMatters(x: int)
    ensures x % ADDRESSES != (x + WORD) % ADDRESSES
  {
    var q, r := x / ADDRESSES, x % ADDRESSES;
    assert x == q * ADDRESSES + r;
    if r + WORD < ADDRESSES {
      DivUnique(x + WORD, ADDRESSES, q, r + WORD);
    } else {
      DivUnique(x + WORD, ADDRESSES, q + 1, r + WORD - ADDRESSES);
    }
  }

  // A static target and an emulated address, the text base apart.
  predicate Agrees(target: nat, pair: nat) {
    (target + TEXT_BASE) % ADDRESSES == pair
  }

  // Both halves could be read before.
  predicate Defined(c: Core, d: PairIdx) {
    d !in c.undef && d + 1 !in c.undef
  }

  /** The handlers run through and leave the static target, the text base added,
      if and only if the pair was defined and no carry is lost: a negative low
      literal must borrow. */
  lemma {:induction false} TargetExactlyWhen(c: Core, sh: Shared, code: seq<Line>, i: nat, p: nat, q: nat, lo: int, hi: int)
    requires Triple(code, i, p, q, lo, hi)
    ensures SiteAt(code, i).target.Some?
    ensures var r := ExecuteAll(c, sh, code, i, q + 1);
      r.signal.Fine? && Agrees(SiteAt(code, i).target.value, PairOf(r.core, code[i].op.pair))
      <==> Defined(c, code[i].op.pair) && !LosesCarry(code[i].addr, lo)
  {
    hide Target, Dynamic, PairOf, ExecuteAll, Search;
    var a := code[i].addr;
    TripleIsFound(code, i, p, q, lo, hi);
    TripleComputes(c, sh, code, i, p, q, lo, hi);
    DynamicIs(a, lo, hi);
    TargetIs(a, lo, hi);
    WordMatters(TEXT_BASE + a + 4 + lo + hi * WORD);
  }

  /** A step back by 4 over a positive low half: the static target is 0, while the
      emulated pair is 2^64 - 2^32 past the text base. */
  lemma {:induction false} BackwardTargetDiffers(c: Core, sh: Shared)
    requires Defined(c, 4)
    ensures var code := [Line(0, GetPc(4)), Line(4, AddLow(4, 4, -4)), Line(12, AddHigh(5, 5, -1))];
      && SiteAt(code, 0).target == Some(0)
      && PairOf(ExecuteAll(c, sh, code, 0, 3).core, 4) == 0xFFFF_FFFF_0000_0000 + TEXT_BASE
  {
    hide ExecuteAll, Search, Execute, PairOf;
    var code := [Line(0, GetPc(4)), Line(4, AddLow(4, 4, -4)), Line(12, AddHigh(5, 5, -1))];
    assert Triple(code, 0, 1, 2, -4, -1);
    TripleIsFound(code, 0, 1, 2, -4, -1);
    TripleComputes(c, sh, code, 0, 1, 2, -4, -1);
  }

  /** On a core whose s4 was undefined the same three lines halt. */
  lemma {:induction false} UndefinedPairHalts(c: Core, sh: Shared)
    requires c.undef == {4}
    ensures var code := [Line(0, GetPc(4)), Line(4, AddLow(4, 4, -4)), Line(12, AddHigh(5, 5, -1))];
      SiteAt(code, 0).target == Some(0) && ExecuteAll(c, sh, code, 0, 3).signal == UndefRead(4)
  {
    hide ExecuteAll, Search, Execute;
    var code := [Line(0, GetPc(4)), Line(4, AddLow(4, 4, -4)), Line(12, AddHigh(5, 5, -1))];
    assert Triple(code, 0, 1, 2, -4, -1);
    TripleIsFound(code, 0, 1, 2, -4, -1);
    TripleComputes(c, sh, code, 0, 1, 2, -4, -1);
  }

  /** The scan does not compare registers: a pair added into other registers is
      reported as a complete site all the same. */
  lemma RegistersAreNotCompared()
    ensures var code := [Line(0, GetPc(4)), Line(4, AddLow(8, 10, 16)), Line(12, AddHigh(9, 11, 0))];
      SiteAt(code, 0).target == Some(20)
  {
    var code := [Line(0, GetPc(4)), Line(4, AddLow(8, 10, 16)), Line(12, AddHigh(9, 11, 0))];
    assert Search(code, 1, 3, None) == Search(code, 2, 3, Some(16)) == Found(Some(16), Some(0));
  }
}
